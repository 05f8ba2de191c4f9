/**
 * The decoded value model: a closed sum of Hessian2 objects with the source's
 * `equal` (directional, structural) and `hash` (cheap, size-based for
 * containers). Object identity, which `RefObject` compares, is an index into
 * an arena of objects ordered by construction.
 */
module Object {
  import opened Bytes
  import opened Wrappers

  /** A class definition: its type name and its ordered field names. */
  datatype RawDefinition = RawDefinition(typeName: ByteString, fieldNames: seq<ByteString>)

  /** `Object::Type` (without `Double`, which this model leaves out). */
  datatype Type =
    | BinaryType | BooleanType | DateType | IntegerType | LongType | NullType | RefType
    | StringType | TypedListType | UntypedListType | TypedMapType | UntypedMapType | ClassType

  datatype Object =
    | Null
    | Boolean(b: bool)
    | Integer(i: int32)
    | Long(l: int64)
    | Date(ms: int64)
    | Binary(bytes: ByteString)
    | Str(s: ByteString)
    | Ref(target: nat)
    | TypedList(listType: ByteString, values: seq<Object>)
    | UntypedList(items: seq<Object>)
    | TypedMap(mapType: ByteString, fields: seq<Entry>)
    | UntypedMap(entries: seq<Entry>)
    | ClassInstance(def: RawDefinition, data: seq<Object>)

  /** One key/value pair of an `UntypedMap` (an `unordered_map` of object pointers). */
  datatype Entry = Entry(key: Object, value: Object)

  function TypeOf(o: Object): Type
  {
    match o
    case Null => NullType
    case Boolean(_) => BooleanType
    case Integer(_) => IntegerType
    case Long(_) => LongType
    case Date(_) => DateType
    case Binary(_) => BinaryType
    case Str(_) => StringType
    case Ref(_) => RefType
    case TypedList(_, _) => TypedListType
    case UntypedList(_) => UntypedListType
    case TypedMap(_, _) => TypedMapType
    case UntypedMap(_) => UntypedMapType
    case ClassInstance(_, _) => ClassType
  }

  // ---------------------------------------------------------------------
  // Equality.

  /** A measure that strictly shrinks from a container to any of its elements. */
  function Size(o: Object): (r: nat)
    ensures r >= 1
    decreases o
  {
    match o
    case TypedList(_, xs) => 1 + ListSize(xs)
    case UntypedList(xs) => 1 + ListSize(xs)
    case ClassInstance(_, xs) => 1 + ListSize(xs)
    case TypedMap(_, es) => 1 + EntriesSize(es)
    case UntypedMap(es) => 1 + EntriesSize(es)
    case _ => 1
  }

  function ListSize(xs: seq<Object>): (r: nat)
    ensures forall i :: 0 <= i < |xs| ==> Size(xs[i]) <= r
    decreases xs
  {
    if xs == [] then 0 else Size(xs[0]) + ListSize(xs[1..])
  }

  function EntriesSize(es: seq<Entry>): (r: nat)
    ensures forall i :: 0 <= i < |es| ==> EntrySize(es[i]) <= r
    ensures es != [] ==> EntriesSize(es[1..]) < r
    decreases es
  {
    if es == [] then 0 else EntrySize(es[0]) + EntriesSize(es[1..])
  }

  function EntrySize(e: Entry): (r: nat)
    ensures r == Size(e.key) + Size(e.value)
    decreases e
  {
    Size(e.key) + Size(e.value)
  }

  /**
   * `a.equal(o)`. Scalars compare by value, `Ref` by target identity, lists
   * element by element, class instances by definition and fields, untyped
   * maps by size and by finding every entry of `a` in `o`. A typed map only
   * checks that every entry of `o` is found in `a`, in that direction.
   */
  function Equal(a: Object, o: Object): bool
    decreases Size(a) + Size(o), 0
  {
    match a
    case Null => o.Null?
    case Boolean(x) => o.Boolean? && o.b == x
    case Integer(x) => o.Integer? && o.i == x
    case Long(x) => o.Long? && o.l == x
    case Date(x) => o.Date? && o.ms == x
    case Binary(x) => o.Binary? && o.bytes == x
    case Str(x) => o.Str? && o.s == x
    case Ref(t) => o.Ref? && o.target == t
    case TypedList(t, xs) =>
      // `o`'s list compares itself against `a`'s
      o.TypedList? && o.listType == t && |xs| == |o.values| &&
      forall i :: 0 <= i < |xs| ==> Equal(o.values[i], xs[i])
    case UntypedList(xs) =>
      o.UntypedList? && |xs| == |o.items| &&
      forall i :: 0 <= i < |xs| ==> Equal(xs[i], o.items[i])
    case ClassInstance(d, xs) =>
      o.ClassInstance? && o.def == d && |xs| == |o.data| &&
      forall i :: 0 <= i < |xs| ==> Equal(o.data[i], xs[i])
    case TypedMap(t, es) =>
      o.TypedMap? && o.mapType == t &&
      forall i :: 0 <= i < |o.fields| ==> FoundEqual(es, o.fields[i])
    case UntypedMap(es) =>
      o.UntypedMap? && |es| == |o.entries| &&
      forall i :: 0 <= i < |es| ==> FoundEqual(o.entries, es[i])
  }

  /** `map.find(probe.key)` succeeds and the found value `equal`s the probe's value. */
  function FoundEqual(es: seq<Entry>, probe: Entry): bool
    decreases Size(probe.key) + Size(probe.value) + EntriesSize(es), 1
  {
    match Find(es, probe.key)
    case None => false
    case Some(j) => Equal(es[j].value, probe.value)
  }

  /**
   * `unordered_map::find(q)`: the first entry whose key the query `equal`s.
   * The hash-bucket pre-selection is not modelled.
   */
  function Find(es: seq<Entry>, q: Object): (r: Option<nat>)
    ensures r.Some? ==> r.value < |es| && Equal(q, es[r.value].key)
    ensures r.None? ==> forall j :: 0 <= j < |es| ==> !Equal(q, es[j].key)
    ensures r.Some? ==> forall j :: 0 <= j < r.value ==> !Equal(q, es[j].key)
    decreases Size(q) + EntriesSize(es), 1
  {
    if es == [] then None
    else if Equal(q, es[0].key) then Some(0)
    else
      var later := Find(es[1..], q);
      assert forall j :: 1 <= j < |es| ==> es[j] == es[1..][j - 1];
      if later.None? then None else Some(later.value + 1)
  }

  // ---------------------------------------------------------------------
  // Hashing.

  /**
   * The standard-library hash primitives the source combines. They are
   * parameters: every statement below holds whatever these functions are.
   */
  datatype Hashers = Hashers(
    str: ByteString -> nat,     // std::hash<std::string>
    boolean: bool -> nat,       // std::hash<bool>
    int32: int -> nat,          // std::hash<int32_t>
    int64: int -> nat,          // std::hash<int64_t>
    size: nat -> nat,           // std::hash<size_t>
    combine: (nat, nat) -> nat) // Utils::hashCombine(seed, v): the new seed

  /** The bytes of an ASCII literal. */
  function Ascii(s: string): (r: ByteString)
    requires forall i :: 0 <= i < |s| ==> s[i] as int < 128
    ensures |r| == |s|
  {
    if s == [] then [] else [s[0] as int] + Ascii(s[1..])
  }

  const NULL_MAGIC: ByteString := Ascii("null")
  const UNTYPED_LIST_MAGIC: ByteString := Ascii("untypedlist")
  const UNTYPED_MAP_MAGIC: ByteString := Ascii("untypedmap")

  /** `RawDefinition::hash`: the type name's hash combined with the field count. */
  function DefinitionHash(h: Hashers, d: RawDefinition): nat
  {
    h.combine(h.str(d.typeName), |d.fieldNames|)
  }

  /** `BinaryObject::hash` per object: the size, then every byte combined in. */
  function BinaryHash(h: Hashers, bytes: ByteString): nat
  {
    CombineAll(h, |bytes|, bytes)
  }

  function CombineAll(h: Hashers, seed: nat, bytes: ByteString): nat
  {
    if bytes == [] then seed else h.combine(CombineAll(h, seed, bytes[..|bytes| - 1]), bytes[|bytes| - 1])
  }

  /**
   * Objects in the order they were constructed. A `RefObject` can only be
   * built from an object that already exists, so a `Ref` in the arena points
   * to an earlier entry.
   */
  predicate WellFormedArena(arena: seq<Object>)
  {
    forall i :: 0 <= i < |arena| && arena[i].Ref? ==> arena[i].target < i
  }

  /** A `Ref` names an object of the arena. */
  predicate Resolves(arena: seq<Object>, o: Object)
  {
    o.Ref? ==> o.target < |arena|
  }

  /** `o.hash()`. Containers hash their type (or a magic string) and their size only. */
  function Hash(h: Hashers, arena: seq<Object>, o: Object): nat
    requires WellFormedArena(arena) && Resolves(arena, o)
    decreases |arena|
  {
    match o
    case Null => h.str(NULL_MAGIC)
    case Boolean(x) => h.boolean(x)
    case Integer(x) => h.int32(x)
    case Long(x) => h.int64(x)
    case Date(x) => h.size(Unsigned(x, 8))
    case Binary(x) => BinaryHash(h, x)
    case Str(x) => h.str(x)
    case Ref(t) => Hash(h, arena[..t], arena[t])
    case TypedList(t, xs) => h.combine(h.str(t), |xs|)
    case UntypedList(xs) => h.combine(h.str(UNTYPED_LIST_MAGIC), |xs|)
    case TypedMap(t, es) => h.combine(h.str(t), |es|)
    case UntypedMap(es) => h.combine(h.str(UNTYPED_MAP_MAGIC), |es|)
    case ClassInstance(d, xs) => h.combine(DefinitionHash(h, d), |xs|)
  }

  // ---------------------------------------------------------------------
  // Properties of equal and hash.

  /** The kinds whose `equal` compares a single stored value: null, the scalars, binary, string and reference. */
  predicate IsLeaf(o: Object) {
    o.Null? || o.Boolean? || o.Integer? || o.Long? || o.Date? || o.Binary? || o.Str? || o.Ref?
  }

  /**
   * `equal` first compares types, so objects of different types are never
   * equal; for a leaf kind it then compares the stored value (a reference
   * its target, null nothing), so equality is identity of the values.
   */
  lemma EqualLeafKinds(a: Object, o: Object)
    ensures TypeOf(a) != TypeOf(o) ==> !Equal(a, o)
    ensures IsLeaf(a) ==> (Equal(a, o) <==> a == o)
  {
  }

  /** Hashing an object against a longer arena gives the same value. */
  lemma HashInLongerArena(h: Hashers, arena: seq<Object>, n: nat, o: Object)
    requires WellFormedArena(arena) && n <= |arena| && Resolves(arena[..n], o)
    ensures WellFormedArena(arena[..n])
    ensures Hash(h, arena[..n], o) == Hash(h, arena, o)
  {
    if o.Ref? {
      assert arena[..n][..o.target] == arena[..o.target];
    }
  }

  /** A reference hashes as its target does. */
  lemma RefHashIsTargetHash(h: Hashers, arena: seq<Object>, t: nat)
    requires WellFormedArena(arena) && t < |arena|
    ensures Hash(h, arena, Ref(t)) == Hash(h, arena, arena[t])
  {
    HashInLongerArena(h, arena, t, arena[t]);
  }

  /** `RawDefinition::operator==` compares type and field names; equal definitions hash alike. */
  lemma DefinitionEqualityAndHash(h: Hashers, d: RawDefinition, e: RawDefinition)
    ensures d == e <==> d.typeName == e.typeName && d.fieldNames == e.fieldNames
    ensures d == e ==> DefinitionHash(h, d) == DefinitionHash(h, e)
  {
  }

  /** Class instances are equal when their definitions are and their fields are pairwise. */
  lemma ClassInstanceEquality(d: RawDefinition, xs: seq<Object>, o: Object)
    ensures Equal(ClassInstance(d, xs), o) <==>
      o.ClassInstance? && o.def == d && |o.data| == |xs| &&
      forall i :: 0 <= i < |xs| ==> Equal(o.data[i], xs[i])
  {
  }

  /**
   * Equal objects hash alike, for every object except a typed map, whose
   * equality does not compare sizes (see `TypedMapEqualIsOneSided`).
   */
  lemma EqualImpliesSameHash(h: Hashers, arena: seq<Object>, a: Object, o: Object)
    requires WellFormedArena(arena) && Resolves(arena, a) && Resolves(arena, o)
    requires !a.TypedMap? && Equal(a, o)
    ensures Hash(h, arena, a) == Hash(h, arena, o)
  {
  }

  // ---------------------------------------------------------------------
  // Lists.

  predicate IsList(o: Object)
  {
    o.UntypedList? || o.TypedList?
  }

  function Elements(list: Object): seq<Object>
    requires IsList(list)
  {
    if list.UntypedList? then list.items else list.values
  }

  /** `get(idx)`: the element at `idx`, or null past the end. */
  function ListGet(list: Object, idx: nat): (r: Option<Object>)
    requires IsList(list)
    ensures r.Some? <==> idx < |Elements(list)|
    ensures r.Some? ==> r.value == Elements(list)[idx]
  {
    if idx >= |Elements(list)| then None else Some(Elements(list)[idx])
  }

  /** `emplace_back(x)`. */
  function EmplaceBack(list: Object, x: Object): (r: Object)
    requires IsList(list)
    ensures IsList(r) && TypeOf(r) == TypeOf(list)
    ensures r.TypedList? ==> r.listType == list.listType
  {
    match list
    case UntypedList(xs) => UntypedList(xs + [x])
    case TypedList(t, xs) => TypedList(t, xs + [x])
  }

  /** `TypedListObject::setType`. */
  function SetType(list: Object, t: ByteString): (r: Object)
    requires list.TypedList?
    ensures r.TypedList? && r.listType == t
  {
    list.(listType := t)
  }

  /** After `emplace_back(x)`, `get` finds `x` at the old size, the earlier elements where they were, and nothing beyond. */
  lemma EmplaceBackThenGet(list: Object, x: Object)
    requires IsList(list)
    ensures ListGet(EmplaceBack(list, x), |Elements(list)|) == Some(x)
    ensures forall i :: 0 <= i < |Elements(list)| ==> ListGet(EmplaceBack(list, x), i) == ListGet(list, i)
    ensures ListGet(EmplaceBack(list, x), |Elements(list)| + 1).None?
  {
  }

  /** `setType` changes the type name and nothing else. */
  lemma SetTypeKeepsElements(list: Object, t: ByteString)
    requires list.TypedList?
    ensures Elements(SetType(list, t)) == Elements(list)
    ensures forall i :: ListGet(SetType(list, t), i) == ListGet(list, i)
  {
  }

  // ---------------------------------------------------------------------
  // Maps.

  predicate IsMap(o: Object)
  {
    o.UntypedMap? || o.TypedMap?
  }

  function MapEntries(m: Object): seq<Entry>
    requires IsMap(m)
  {
    if m.UntypedMap? then m.entries else m.fields
  }

  function WithEntries(m: Object, es: seq<Entry>): (r: Object)
    requires IsMap(m)
    ensures IsMap(r) && TypeOf(r) == TypeOf(m) && MapEntries(r) == es
    ensures r.TypedMap? ==> r.mapType == m.mapType
  {
    if m.UntypedMap? then UntypedMap(es) else TypedMap(m.mapType, es)
  }

  /** `emplace(k, v)`: inserts only when no key that `k` equals is present; says whether it did. */
  function MapEmplace(m: Object, k: Object, v: Object): (r: (Object, bool))
    requires IsMap(m)
    ensures IsMap(r.0) && TypeOf(r.0) == TypeOf(m)
  {
    if Find(MapEntries(m), k).Some? then (m, false)
    else (WithEntries(m, MapEntries(m) + [Entry(k, v)]), true)
  }

  /** `get(key)`: looks the key up as a string object. */
  function MapGet(m: Object, key: ByteString): (r: Option<Object>)
    requires IsMap(m)
  {
    match Find(MapEntries(m), Str(key))
    case None => None
    case Some(j) => Some(MapEntries(m)[j].value)
  }

  /** `get(key)` returns the value of the first entry whose key is the string `key`, and null when there is none. */
  lemma MapGetFindsStringKey(m: Object, key: ByteString)
    requires IsMap(m)
    ensures MapGet(m, key).None? <==> forall j :: 0 <= j < |MapEntries(m)| ==> MapEntries(m)[j].key != Str(key)
    ensures MapGet(m, key).Some? ==> exists j :: 0 <= j < |MapEntries(m)| && MapEntries(m)[j] == Entry(Str(key), MapGet(m, key).value)
  {
    var es := MapEntries(m);
    forall j | 0 <= j < |es|
      ensures Equal(Str(key), es[j].key) <==> es[j].key == Str(key)
    {
    }
    match Find(es, Str(key))
    case None =>
    case Some(j) =>
      assert es[j] == Entry(Str(key), MapGet(m, key).value);
  }

  /** Appending an entry leaves earlier matches alone and makes the new key findable. */
  lemma {:induction false} FindAppend(es: seq<Entry>, e: Entry, q: Object)
    ensures Find(es + [e], q) ==
      if Find(es, q).Some? then Find(es, q)
      else if Equal(q, e.key) then Some(|es|)
      else None
  {
    if es != [] {
      assert (es + [e])[1..] == es[1..] + [e];
      FindAppend(es[1..], e, q);
    }
  }

  /** Emplacing under a string key that is absent makes `get` return the new value; under a present key nothing changes. */
  lemma EmplaceThenGet(m: Object, key: ByteString, v: Object)
    requires IsMap(m)
    ensures var (m', inserted) := MapEmplace(m, Str(key), v);
      inserted == MapGet(m, key).None? &&
      MapGet(m', key) == if inserted then Some(v) else MapGet(m, key)
  {
    FindAppend(MapEntries(m), Entry(Str(key), v), Str(key));
  }

  /** A key the query `equal`s occurs at most once among the entries. */
  predicate AtMostOnce(es: seq<Entry>, q: Object)
  {
    forall j, j' :: 0 <= j < |es| && 0 <= j' < |es| && Equal(q, es[j].key) && Equal(q, es[j'].key) ==> j == j'
  }

  /** Looking a probe up in two orderings of the same entries finds the same value. */
  lemma FoundEqualInAnyOrder(os: seq<Entry>, os2: seq<Entry>, e: Entry)
    requires multiset(os) == multiset(os2)
    requires AtMostOnce(os, e.key) && AtMostOnce(os2, e.key)
    ensures FoundEqual(os, e) == FoundEqual(os2, e)
  {
    match Find(os, e.key)
    case Some(j) =>
      assert os[j] in multiset(os2);
      var j2 :| 0 <= j2 < |os2| && os2[j2] == os[j];
      assert Find(os2, e.key) == Some(j2);
    case None =>
      forall j3 | 0 <= j3 < |os2|
        ensures !Equal(e.key, os2[j3].key)
      {
        assert os2[j3] in multiset(os);
        var j4 :| 0 <= j4 < |os| && os[j4] == os2[j3];
      }
  }

  /**
   * Untyped-map equality does not depend on the order of either map's
   * entries, as long as every probed key matches at most one entry.
   */
  lemma UntypedMapEqualIgnoresOrder(es: seq<Entry>, ps: seq<Entry>, os: seq<Entry>, os2: seq<Entry>)
    requires multiset(es) == multiset(ps) && multiset(os) == multiset(os2)
    requires forall i :: 0 <= i < |es| ==> AtMostOnce(os, es[i].key) && AtMostOnce(os2, es[i].key)
    ensures Equal(UntypedMap(es), UntypedMap(os)) == Equal(UntypedMap(ps), UntypedMap(os2))
  {
    assert |es| == |multiset(es)| == |ps|;
    assert |os| == |multiset(os)| == |os2|;
    forall i | 0 <= i < |es|
      ensures FoundEqual(os, es[i]) == FoundEqual(os2, es[i])
    {
      FoundEqualInAnyOrder(os, os2, es[i]);
    }
    if Equal(UntypedMap(es), UntypedMap(os)) {
      forall j | 0 <= j < |ps|
        ensures FoundEqual(os2, ps[j])
      {
        assert ps[j] in multiset(es);
        var i :| 0 <= i < |es| && es[i] == ps[j];
      }
    }
    if Equal(UntypedMap(ps), UntypedMap(os2)) {
      forall i | 0 <= i < |es|
        ensures FoundEqual(os, es[i])
      {
        assert es[i] in multiset(ps);
        var j :| 0 <= j < |ps| && ps[j] == es[i];
      }
    }
  }

  // ---------------------------------------------------------------------
  // Typed-map equality as written and as intended.

  /** Hash primitives that make a container's hash its type hash plus its size. */
  function CountingHashers(): Hashers
  {
    Hashers(s => 0, b => 0, i => 0, i => 0, n => 0, (seed, v) => seed + v)
  }

  /**
   * As written, typed-map equality compares the other map's size with
   * itself, so a map with one more entry `equal`s the smaller map but not
   * the reverse, and the two need not hash alike.
   */
  lemma TypedMapEqualIsOneSided()
    ensures var t := Ascii("type1");
      var big := TypedMap(t, [Entry(Str(Ascii("key1")), Integer(1))]);
      var small := TypedMap(t, []);
      Equal(big, small) && !Equal(small, big) &&
      Hash(CountingHashers(), [], big) != Hash(CountingHashers(), [], small)
  {
    var big := TypedMap(Ascii("type1"), [Entry(Str(Ascii("key1")), Integer(1))]);
    var small := TypedMap(Ascii("type1"), []);
    assert Find(small.fields, Str(Ascii("key1"))).None?;
    assert !FoundEqual(small.fields, big.fields[0]);
  }

  /** Typed-map equality with the sizes of the two maps compared, as intended. */
  function TypedMapEqualIntended(a: Object, o: Object): (r: bool)
    requires a.TypedMap?
    ensures r ==> Equal(a, o)
  {
    o.TypedMap? && o.mapType == a.mapType && |o.fields| == |a.fields| &&
    forall i :: 0 <= i < |o.fields| ==> FoundEqual(a.fields, o.fields[i])
  }

  /** With the sizes compared, equal typed maps hash alike, and the one-sided example is no longer equal. */
  lemma TypedMapIntendedKeepsHash(h: Hashers, arena: seq<Object>, a: Object, o: Object)
    requires WellFormedArena(arena) && a.TypedMap? && TypedMapEqualIntended(a, o)
    ensures Hash(h, arena, a) == Hash(h, arena, o)
    ensures !TypedMapEqualIntended(TypedMap(Ascii("type1"), [Entry(Str(Ascii("key1")), Integer(1))]), TypedMap(Ascii("type1"), []))
  {
  }

  // ---------------------------------------------------------------------
  // The source's own examples.

  /** Two typed maps of the same type and size hash alike, whatever their entries. */
  lemma TypedMapSameHash(h: Hashers, t: ByteString, es: seq<Entry>, es2: seq<Entry>)
    requires |es| == |es2|
    ensures Hash(h, [], TypedMap(t, es)) == Hash(h, [], TypedMap(t, es2))
  {
  }

  /** Two one-entry typed maps whose values differ are not equal, although they hash alike. */
  lemma TypedMapSameHashNotEqual(h: Hashers, t: ByteString, key: ByteString, x: int32, y: int32)
    requires x != y
    ensures Hash(h, [], TypedMap(t, [Entry(Str(key), Integer(x))])) == Hash(h, [], TypedMap(t, [Entry(Str(key), Integer(y))]))
    ensures !Equal(TypedMap(t, [Entry(Str(key), Integer(x))]), TypedMap(t, [Entry(Str(key), Integer(y))]))
  {
    var es := [Entry(Str(key), Integer(x))];
    var o := TypedMap(t, [Entry(Str(key), Integer(y))]);
    TypedMapSameHash(h, t, es, o.fields);
    assert Find(es, Str(key)) == Some(0);
    assert !FoundEqual(es, o.fields[0]);
  }

  /** Untyped lists with equal elements are equal and hash alike; a shorter list is not equal. */
  lemma UntypedListExample(h: Hashers)
    ensures var p := UntypedList([Str(Ascii("obj1")), Integer(1), Boolean(true)]);
      var p3 := UntypedList([Str(Ascii("obj1")), Integer(1)]);
      Equal(p, p) && Hash(h, [], p) == Hash(h, [], UntypedList([Str(Ascii("obj1")), Integer(1), Boolean(true)])) &&
      !Equal(p, p3)
  {
  }

  /** Class instances with the same definition are equal; a different type name makes them unequal. */
  lemma ClassInstanceExample(h: Hashers, name1: ByteString, name2: ByteString)
    requires name1 != name2
    ensures var d1 := RawDefinition(name1, []);
      var d2 := RawDefinition(name2, []);
      Equal(ClassInstance(d1, []), ClassInstance(d1, [])) &&
      !Equal(ClassInstance(d1, []), ClassInstance(d2, [])) &&
      Hash(h, [], ClassInstance(d1, [])) == Hash(h, [], ClassInstance(d1, []))
  {
  }
}
