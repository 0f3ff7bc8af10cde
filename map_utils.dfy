/** The map helpers of MapUtils over Dafny maps. As in ListUtils, every
    helper first asks isEmpty, so a null map is represented by the empty
    map. A HashMap iterates its entries in an order the map does not
    determine; the helpers that expose that order take it as a parameter
    `order` that lists every key exactly once. */
module MapUtils {
  import opened Wrappers
  import opened Exceptions
  import ListUtils

  /** `order` is an iteration order of `m`: every key of `m` exactly once. */
  predicate IsIterationOrder<K(==)>(order: seq<K>, m: set<K>) {
    && (forall i :: 0 <= i < |order| ==> order[i] in m)
    && (forall k :: k in m ==> k in order)
    && ListUtils.NoDuplicates(order)
  }

  /** An iteration order has exactly one position per entry. */
  lemma IterationOrderLength<K(!new)>(order: seq<K>, keys: set<K>)
    requires IsIterationOrder(order, keys)
    ensures |order| == |keys|
  {
    ListUtils.NoDuplicatesCard(order);
    assert ListUtils.ToSet(order) == keys;
  }

  /** isEmpty: true exactly for the empty (or null) map. */
  predicate IsEmpty<K, V>(m: map<K, V>)
    ensures IsEmpty(m) <==> m == map[]
  {
    |m| == 0
  }

  /** getFirstKey: null for an empty map, otherwise the first key the
      map's iteration yields. */
  function GetFirstKey<K(==), V>(m: map<K, V>, order: seq<K>): (r: Option<K>)
    requires IsIterationOrder(order, m.Keys)
    ensures r.None? <==> m == map[]
    ensures r.Some? ==> r.value in m && r.value == order[0]
  {
    if IsEmpty(m) then None
    else
      assert order != [] by {
        var k :| k in m;
        assert k in order;
      }
      Some(order[0])
  }

  /** getFirstValue: null for an empty map, otherwise the value of the
      first key in iteration order. */
  function GetFirstValue<K(==), V>(m: map<K, V>, order: seq<K>): (r: Option<V>)
    requires IsIterationOrder(order, m.Keys)
    ensures r.None? <==> m == map[]
    ensures r.Some? ==> GetFirstKey(m, order).Some? && r.value == m[GetFirstKey(m, order).value]
  {
    match GetFirstKey(m, order)
    case None => None
    case Some(k) => Some(m[k])
  }

  /** getKeys: a fresh set holding exactly the keys. */
  function GetKeys<K(==,!new), V>(m: map<K, V>): (r: set<K>)
    ensures forall k :: k in r <==> k in m
  {
    if IsEmpty(m) then {} else m.Keys
  }

  /** The values at the given keys, in the keys' order. */
  function ValuesAt<K(==), V>(m: map<K, V>, keys: seq<K>): (r: seq<V>)
    requires forall i :: 0 <= i < |keys| ==> keys[i] in m
    ensures |r| == |keys|
    ensures forall i :: 0 <= i < |keys| ==> r[i] == m[keys[i]]
  {
    if |keys| == 0 then [] else [m[keys[0]]] + ValuesAt(m, keys[1..])
  }

  /** getValues: one value per entry, in iteration order; the list holds
      exactly the map's values. */
  function GetValues<K(!new), V(==,!new)>(m: map<K, V>, order: seq<K>): (r: seq<V>)
    requires IsIterationOrder(order, m.Keys)
    ensures |r| == |m| == |order|
    ensures forall i :: 0 <= i < |order| ==> r[i] == m[order[i]]
    ensures forall v :: v in r <==> v in m.Values
  {
    IterationOrderLength(order, m.Keys);
    var r := if IsEmpty(m) then [] else ValuesAt(m, order);
    assert forall v :: v in m.Values ==> v in r by {
      forall v | v in m.Values ensures v in r {
        var k :| k in m && m[k] == v;
        var i :| 0 <= i < |order| && order[i] == k;
        assert r[i] == v;
      }
    }
    r
  }

  /** toList: the mapper applied to each entry, in iteration order. */
  function ToList<K(!new), V, R>(m: map<K, V>, order: seq<K>, mapper: (K, V) -> R): (r: seq<R>)
    requires IsIterationOrder(order, m.Keys)
    ensures |r| == |order|
    ensures forall i :: 0 <= i < |order| ==> r[i] == mapper(order[i], m[order[i]])
  {
    IterationOrderLength(order, m.Keys);
    if IsEmpty(m) then []
    else ListUtils.Map(Entries(m, order), (e: (K, V)) => mapper(e.0, e.1))
  }

  /** keysToList: the mapper applied to each key, in iteration order. */
  function KeysToList<K(!new), V, R>(m: map<K, V>, order: seq<K>, mapper: K -> R): (r: seq<R>)
    requires IsIterationOrder(order, m.Keys)
    ensures |r| == |order|
    ensures forall i :: 0 <= i < |order| ==> r[i] == mapper(order[i])
  {
    IterationOrderLength(order, m.Keys);
    if IsEmpty(m) then [] else ListUtils.Map(order, mapper)
  }

  /** valuesToList: the mapper applied to each value, in iteration order. */
  function ValuesToList<K(!new), V, R>(m: map<K, V>, order: seq<K>, mapper: V -> R): (r: seq<R>)
    requires IsIterationOrder(order, m.Keys)
    ensures |r| == |order|
    ensures forall i :: 0 <= i < |order| ==> r[i] == mapper(m[order[i]])
  {
    IterationOrderLength(order, m.Keys);
    if IsEmpty(m) then [] else ListUtils.Map(ValuesAt(m, order), mapper)
  }

  /** filter: the entries the predicate accepts, with their values. */
  function Filter<K(==,!new), V>(m: map<K, V>, keep: (K, V) -> bool): (r: map<K, V>)
    ensures forall k :: k in r <==> k in m && keep(k, m[k])
    ensures forall k :: k in r ==> r[k] == m[k]
  {
    if IsEmpty(m) then map[] else map k | k in m && keep(k, m[k]) :: m[k]
  }

  /** Filtering twice with the same predicate changes nothing more, and
      filtering keeps a sub-map of the source. */
  lemma FilterIdempotent<K(!new), V>(m: map<K, V>, keep: (K, V) -> bool)
    ensures Filter(Filter(m, keep), keep) == Filter(m, keep)
    ensures Filter(m, keep).Keys <= m.Keys
  {
    var once := Filter(m, keep);
    var twice := Filter(once, keep);
    assert twice.Keys == once.Keys;
  }

  /** The key mapper is injective on the given keys. */
  ghost predicate InjectiveOn<K(!new), R>(keyMapper: K -> R, keys: set<K>) {
    forall a, b :: a in keys && b in keys && keyMapper(a) == keyMapper(b) ==> a == b
  }

  /** The collector of transformKeys: Collectors.toMap without a merge
      function walks the entries and throws IllegalStateException at the
      first key that maps onto a key already collected. */
  function CollectKeys<K(==), V, R(==)>(m: map<K, V>, keys: seq<K>, keyMapper: K -> R, acc: map<R, V>): (r: Result<map<R, V>, Exception>)
    requires forall i :: 0 <= i < |keys| ==> keys[i] in m
  {
    if |keys| == 0 then Success(acc)
    else if keyMapper(keys[0]) in acc then Failure(IllegalState("Duplicate key"))
    else CollectKeys(m, keys[1..], keyMapper, acc[keyMapper(keys[0]) := m[keys[0]]])
  }

  /** The map obtained from `m` when each key is replaced by its image. */
  ghost predicate IsKeyImage<K(!new), V, R(!new)>(r: map<R, V>, m: map<K, V>, keys: set<K>, keyMapper: K -> R)
    requires keys <= m.Keys
  {
    && (forall k :: k in keys ==> keyMapper(k) in r && r[keyMapper(k)] == m[k])
    && (forall y :: y in r ==> exists k :: k in keys && keyMapper(k) == y)
  }

  lemma {:induction false} CollectKeysCorrect<K(!new), V, R(!new)>(m: map<K, V>, done: seq<K>, keys: seq<K>, keyMapper: K -> R, acc: map<R, V>)
    requires forall i :: 0 <= i < |keys| ==> keys[i] in m
    requires forall i :: 0 <= i < |done| ==> done[i] in m
    requires ListUtils.NoDuplicates(done + keys)
    requires InjectiveOn(keyMapper, ListUtils.ToSet(done))
    requires IsKeyImage(acc, m, ListUtils.ToSet(done), keyMapper)
    ensures CollectKeys(m, keys, keyMapper, acc).Success? <==> InjectiveOn(keyMapper, ListUtils.ToSet(done + keys))
    ensures CollectKeys(m, keys, keyMapper, acc).Success? ==>
              IsKeyImage(CollectKeys(m, keys, keyMapper, acc).value, m, ListUtils.ToSet(done + keys), keyMapper)
    decreases |keys|
  {
    if |keys| == 0 {
      assert done + keys == done;
    } else {
      var k := keys[0];
      var done' := done + [k];
      assert done' + keys[1..] == done + keys;
      assert ListUtils.ToSet(done') == ListUtils.ToSet(done) + {k};
      if keyMapper(k) in acc {
        var j :| j in ListUtils.ToSet(done) && keyMapper(j) == keyMapper(k);
        assert j != k by {
          var i :| 0 <= i < |done| && done[i] == j;
          assert (done + keys)[i] == j && (done + keys)[|done|] == k;
        }
        assert j in ListUtils.ToSet(done + keys) && k in ListUtils.ToSet(done + keys);
      } else {
        var acc' := acc[keyMapper(k) := m[k]];
        assert InjectiveOn(keyMapper, ListUtils.ToSet(done'));
        assert IsKeyImage(acc', m, ListUtils.ToSet(done'), keyMapper);
        CollectKeysCorrect(m, done', keys[1..], keyMapper, acc');
      }
    }
  }

  /** transformKeys: succeeds exactly when no two keys map to the same new
      key, and then holds each value under its key's image; otherwise the
      collector throws IllegalStateException. */
  function TransformKeys<K(!new), V, R(!new)>(m: map<K, V>, order: seq<K>, keyMapper: K -> R): (r: Result<map<R, V>, Exception>)
    requires IsIterationOrder(order, m.Keys)
    ensures r.Success? <==> InjectiveOn(keyMapper, m.Keys)
    ensures r.Success? ==> IsKeyImage(r.value, m, m.Keys, keyMapper)
    ensures r.Failure? ==> r.error.IllegalState?
  {
    if IsEmpty(m) then Success(map[])
    else
      assert [] + order == order;
      assert ListUtils.ToSet(order) == m.Keys;
      CollectKeysCorrect(m, [], order, keyMapper, map[]);
      CollectFailure(m, order, keyMapper, map[]);
      CollectKeys(m, order, keyMapper, map[])
  }

  lemma {:induction false} CollectFailure<K, V, R>(m: map<K, V>, keys: seq<K>, keyMapper: K -> R, acc: map<R, V>)
    requires forall i :: 0 <= i < |keys| ==> keys[i] in m
    ensures CollectKeys(m, keys, keyMapper, acc).Failure? ==> CollectKeys(m, keys, keyMapper, acc).error.IllegalState?
  {
    if |keys| > 0 && keyMapper(keys[0]) !in acc {
      CollectFailure(m, keys[1..], keyMapper, acc[keyMapper(keys[0]) := m[keys[0]]]);
    }
  }

  /** transformValues: the same keys, each value replaced by its image. */
  function TransformValues<K(==), V, R>(m: map<K, V>, valueMapper: V -> R): (r: map<K, R>)
    ensures r.Keys == m.Keys
    ensures forall k :: k in m ==> r[k] == valueMapper(m[k])
  {
    if IsEmpty(m) then map[] else map k | k in m :: valueMapper(m[k])
  }

  /** Transforming values and then keys by a renaming that is injective
      gives the same map as the other way round. */
  lemma TransformCommute<K(!new), V, R(!new), W>(m: map<K, V>, order: seq<K>, keyMapper: K -> R, valueMapper: V -> W)
    requires IsIterationOrder(order, m.Keys)
    requires InjectiveOn(keyMapper, m.Keys)
    ensures TransformKeys(TransformValues(m, valueMapper), order, keyMapper).Success?
    ensures TransformKeys(m, order, keyMapper).Success?
    ensures TransformKeys(TransformValues(m, valueMapper), order, keyMapper).value
         == TransformValues(TransformKeys(m, order, keyMapper).value, valueMapper)
  {
    var a := TransformKeys(TransformValues(m, valueMapper), order, keyMapper).value;
    var b := TransformValues(TransformKeys(m, order, keyMapper).value, valueMapper);
    forall y | y in a ensures y in b && a[y] == b[y] {
      var k :| k in m && keyMapper(k) == y;
    }
    forall y | y in b ensures y in a {
      var k :| k in m && keyMapper(k) == y;
    }
  }

  /** The entries of the map as key-value pairs in iteration order. */
  function Entries<K(==), V>(m: map<K, V>, order: seq<K>): (r: seq<(K, V)>)
    requires forall i :: 0 <= i < |order| ==> order[i] in m
    ensures |r| == |order|
    ensures forall i :: 0 <= i < |order| ==> r[i] == (order[i], m[order[i]])
  {
    if |order| == 0 then [] else [(order[0], m[order[0]])] + Entries(m, order[1..])
  }

  /** Map.Entry.comparingByKey(comparator) and comparingByValue(comparator). */
  function ByKey<K, V>(le: (K, K) -> bool): ((K, V), (K, V)) -> bool {
    (a: (K, V), b: (K, V)) => le(a.0, b.0)
  }

  function ByValue<K, V>(le: (V, V) -> bool): ((K, V), (K, V)) -> bool {
    (a: (K, V), b: (K, V)) => le(a.1, b.1)
  }

  lemma ByKeyPreorder<K(!new), V(!new)>(le: (K, K) -> bool)
    requires ListUtils.TotalPreorder(le)
    ensures ListUtils.TotalPreorder(ByKey<K, V>(le))
  {
    var byKey := ByKey<K, V>(le);
    forall a, b ensures byKey(a, b) || byKey(b, a) {
      assert le(a.0, b.0) || le(b.0, a.0);
    }
    forall a, b, c | byKey(a, b) && byKey(b, c) ensures byKey(a, c) {
      assert le(a.0, b.0) && le(b.0, c.0);
    }
  }

  lemma ByValuePreorder<K(!new), V(!new)>(le: (V, V) -> bool)
    requires ListUtils.TotalPreorder(le)
    ensures ListUtils.TotalPreorder(ByValue<K, V>(le))
  {
    var byValue := ByValue<K, V>(le);
    forall a, b ensures byValue(a, b) || byValue(b, a) {
      assert le(a.1, b.1) || le(b.1, a.1);
    }
    forall a, b, c | byValue(a, b) && byValue(b, c) ensures byValue(a, c) {
      assert le(a.1, b.1) && le(b.1, c.1);
    }
  }

  /** sortByKey: a LinkedHashMap whose insertion order is the entries
      sorted by key; represented by its entry sequence. The result lists
      every entry of the map exactly once, in comparator order. */
  function SortByKey<K(!new), V(!new)>(m: map<K, V>, order: seq<K>, le: (K, K) -> bool): (r: seq<(K, V)>)
    requires IsIterationOrder(order, m.Keys)
    requires ListUtils.TotalPreorder(le)
    ensures ListUtils.SortedBy(r, ByKey(le))
    ensures multiset(r) == multiset(Entries(m, order))
    ensures forall k :: k in m ==> (k, m[k]) in r
    ensures forall i :: 0 <= i < |r| ==> r[i].0 in m && r[i].1 == m[r[i].0]
  {
    ByKeyPreorder<K, V>(le);
    if IsEmpty(m) then [] else SortEntries(m, order, ByKey(le))
  }

  /** sortByValue: as sortByKey, ordered by value. */
  function SortByValue<K(!new), V(!new)>(m: map<K, V>, order: seq<K>, le: (V, V) -> bool): (r: seq<(K, V)>)
    requires IsIterationOrder(order, m.Keys)
    requires ListUtils.TotalPreorder(le)
    ensures ListUtils.SortedBy(r, ByValue(le))
    ensures multiset(r) == multiset(Entries(m, order))
    ensures forall k :: k in m ==> (k, m[k]) in r
    ensures forall i :: 0 <= i < |r| ==> r[i].0 in m && r[i].1 == m[r[i].0]
  {
    ByValuePreorder<K, V>(le);
    if IsEmpty(m) then [] else SortEntries(m, order, ByValue(le))
  }

  /** sortByKey keeps the iteration order of entries whose keys compare
      equal (Stream.sorted is stable). */
  lemma SortByKeyStable<K(!new), V(!new)>(m: map<K, V>, order: seq<K>, le: (K, K) -> bool, e: (K, V))
    requires IsIterationOrder(order, m.Keys)
    requires ListUtils.TotalPreorder(le)
    ensures ListUtils.Filter(SortByKey(m, order, le), ListUtils.EquivalentTo(ByKey(le), e)) ==
            ListUtils.Filter(Entries(m, order), ListUtils.EquivalentTo(ByKey(le), e))
  {
    ByKeyPreorder<K, V>(le);
    IterationOrderLength(order, m.Keys);
    ListUtils.SortSeqStable(Entries(m, order), ByKey(le), e);
  }

  /** sortByValue keeps the iteration order of entries with equal values. */
  lemma SortByValueStable<K(!new), V(!new)>(m: map<K, V>, order: seq<K>, le: (V, V) -> bool, e: (K, V))
    requires IsIterationOrder(order, m.Keys)
    requires ListUtils.TotalPreorder(le)
    ensures ListUtils.Filter(SortByValue(m, order, le), ListUtils.EquivalentTo(ByValue(le), e)) ==
            ListUtils.Filter(Entries(m, order), ListUtils.EquivalentTo(ByValue(le), e))
  {
    ByValuePreorder<K, V>(le);
    IterationOrderLength(order, m.Keys);
    ListUtils.SortSeqStable(Entries(m, order), ByValue(le), e);
  }

  /** The sorted stream of entries that both sorts collect. */
  function SortEntries<K(!new), V(!new)>(m: map<K, V>, order: seq<K>, le: ((K, V), (K, V)) -> bool): (r: seq<(K, V)>)
    requires IsIterationOrder(order, m.Keys)
    requires ListUtils.TotalPreorder(le)
    ensures ListUtils.SortedBy(r, le)
    ensures multiset(r) == multiset(Entries(m, order))
    ensures forall k :: k in m ==> (k, m[k]) in r
    ensures forall i :: 0 <= i < |r| ==> r[i].0 in m && r[i].1 == m[r[i].0]
  {
    var entries := Entries(m, order);
    var r := ListUtils.SortSeq(entries, le);
    assert forall k :: k in m ==> (k, m[k]) in r by {
      forall k | k in m ensures (k, m[k]) in r {
        var i :| 0 <= i < |order| && order[i] == k;
        assert entries[i] in multiset(entries);
      }
    }
    assert forall i :: 0 <= i < |r| ==> r[i].0 in m && r[i].1 == m[r[i].0] by {
      forall i | 0 <= i < |r| ensures r[i].0 in m && r[i].1 == m[r[i].0] {
        assert r[i] in multiset(entries);
        var j :| 0 <= j < |entries| && entries[j] == r[i];
      }
    }
    r
  }

  /** One entry as toString writes it: key, separator, value. */
  function EntryText<K, V>(showKey: K -> string, showValue: V -> string, keyValueSeparator: string): (K, V) -> string {
    (k: K, v: V) => showKey(k) + keyValueSeparator + showValue(v)
  }

  /** toString: "" for an empty map, otherwise "key<kvSep>value" for each
      entry in iteration order, joined with the entry separator. */
  function ToString<K(!new), V>(m: map<K, V>, order: seq<K>, showKey: K -> string, showValue: V -> string,
                               keyValueSeparator: string, entrySeparator: string): (r: string)
    requires IsIterationOrder(order, m.Keys)
    ensures m == map[] ==> r == ""
    ensures r == ListUtils.JoinStrings(ToList(m, order, EntryText(showKey, showValue, keyValueSeparator)), entrySeparator)
    ensures |order| == 1 ==> r == showKey(order[0]) + keyValueSeparator + showValue(m[order[0]])
    ensures |order| > 0 ==>
              |r| == ListUtils.SumLengths(ToList(m, order, EntryText(showKey, showValue, keyValueSeparator)))
                     + (|order| - 1) * |entrySeparator|
  {
    var parts := ToList(m, order, EntryText(showKey, showValue, keyValueSeparator));
    if IsEmpty(m) then ""
    else
      ListUtils.JoinLength(parts, entrySeparator);
      ListUtils.JoinStrings(parts, entrySeparator)
  }

  /** A java.util.Properties table holds arbitrary objects; the ones that
      matter here are strings, everything else is an opaque object. */
  datatype PropertyValue = Str(s: string) | Obj(id: nat)

  type Properties = map<PropertyValue, PropertyValue>

  /** toProperties: a fresh Properties holding every entry of the map. */
  function ToProperties(m: map<string, string>): (p: Properties)
    ensures forall k :: k in m <==> Str(k) in p
    ensures forall k :: k in m ==> p[Str(k)] == Str(m[k])
    ensures forall e :: e in p ==> e.Str?
  {
    if IsEmpty(m) then map[] else map k | k in m :: Str(k) := Str(m[k])
  }

  /** The keys that stringPropertyNames lists: both key and value are
      strings. */
  function StringPropertyNames(p: Properties): (names: set<string>)
    ensures forall k :: k in names <==> Str(k) in p && p[Str(k)].Str?
  {
    set e | e in p && e.Str? && p[e].Str? :: e.s
  }

  /** The string entries of a Properties table as a map. */
  function StringEntries(p: Properties): (m: map<string, string>)
    ensures m.Keys == StringPropertyNames(p)
    ensures forall k :: k in m ==> Str(k) in p && p[Str(k)] == Str(m[k])
  {
    map k | k in StringPropertyNames(p) :: p[Str(k)].s
  }

  /** fromProperties: copies every string-named property into a fresh
      map, one name at a time; a null table gives an empty map. */
  method FromProperties(properties: Option<Properties>) returns (m: map<string, string>)
    ensures properties.None? ==> m == map[]
    ensures properties.Some? ==> m == StringEntries(properties.value)
  {
    m := map[];
    if properties.Some? {
      var p := properties.value;
      var names := StringPropertyNames(p);
      while names != {}
        invariant names <= StringPropertyNames(p)
        invariant m.Keys == StringPropertyNames(p) - names
        invariant forall k :: k in m ==> p[Str(k)] == Str(m[k])
        decreases names
      {
        var key :| key in names;
        m := m[key := p[Str(key)].s];
        names := names - {key};
      }
      assert m == StringEntries(p);
    }
  }

  /** A map survives the trip through Properties unchanged. */
  lemma PropertiesRoundTrip(m: map<string, string>)
    ensures StringEntries(ToProperties(m)) == m
  {
    var back := StringEntries(ToProperties(m));
    assert back.Keys == m.Keys;
  }
}
