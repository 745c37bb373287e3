// Renaming duplicate record fields in an Avro schema.
// Source: src/alert/winter.rs (dedupe_record_field_names).
module SchemaDedupe {
  import opened Wrappers

  /** A JSON value as serde_json holds it. */
  datatype Json =
    | Null
    | Bool(value: bool)
    | Number(text: string)
    | Str(text: string)
    | Arr(items: seq<Json>)
    | Obj(members: seq<Member>)

  datatype Member = Member(key: string, value: Json)

  /** The position of a key. */
  function Find(members: seq<Member>, key: string): (i: nat)
    ensures i <= |members|
    ensures i < |members| ==> members[i].key == key
  {
    if members == [] || members[0].key == key then 0 else 1 + Find(members[1..], key)
  }

  function Get(members: seq<Member>, key: string): Option<Json> {
    var i := Find(members, key);
    if i < |members| then Some(members[i].value) else None
  }

  /** `insert` under a key that is present. */
  function Set(members: seq<Member>, key: string, value: Json): seq<Member> {
    var i := Find(members, key);
    if i < |members| then members[i := Member(key, value)] else members + [Member(key, value)]
  }

  /** `field.get("name").and_then(as_str)`. */
  function NameOf(field: Json): Option<string> {
    if field.Obj? && Get(field.members, "name").Some? && Get(field.members, "name").value.Str?
    then Some(Get(field.members, "name").value.text)
    else None
  }

  function WithName(field: Json, name: string): Json
    requires field.Obj?
  {
    Obj(Set(field.members, "name", Str(name)))
  }

  /** The fields of a value that is a record with a `fields` array. */
  function RecordFields(members: seq<Member>): Option<seq<Json>> {
    if Get(members, "type") == Some(Str("record")) && Get(members, "fields").Some? &&
       Get(members, "fields").value.Arr?
    then Some(Get(members, "fields").value.items)
    else None
  }

  // ----- the names given to duplicates -----

  function Decimal(n: nat): string {
    if n < 10 then [('0' as int + n) as char] else Decimal(n / 10) + [('0' as int + n % 10) as char]
  }

  function DupName(name: string, count: nat): string {
    name + "__dup" + Decimal(count)
  }

  /** How many of the fields carry the name. */
  function Count(fields: seq<Json>, name: string): nat {
    if fields == [] then 0
    else (if NameOf(fields[0]) == Some(name) then 1 else 0) + Count(fields[1..], name)
  }

  /** The name field `k` ends up with. */
  function NewName(fields: seq<Json>, k: nat): Option<string>
    requires k < |fields|
  {
    match NameOf(fields[k])
    case None => None
    case Some(name) =>
      var earlier := Count(fields[..k], name);
      Some(if earlier == 0 then name else DupName(name, earlier))
  }

  function RenamedField(fields: seq<Json>, k: nat): Json
    requires k < |fields|
  {
    if NameOf(fields[k]).None? || Count(fields[..k], NameOf(fields[k]).value) == 0 then fields[k]
    else WithName(fields[k], NewName(fields, k).value)
  }

  function Renamed(fields: seq<Json>): seq<Json> {
    seq(|fields|, k requires 0 <= k < |fields| => RenamedField(fields, k))
  }

  /** Every record's duplicate field names renamed, at any depth: nested values first, then the
      record itself. */
  function Dedupe(value: Json): Json
    decreases value, 1
  {
    match value
    case Arr(items) => Arr(DedupeAll(items))
    case Obj(members) => Obj(RenameIn(DedupeMembers(members)))
    case _ => value
  }

  function DedupeAll(items: seq<Json>): seq<Json>
    decreases items, 0
  {
    seq(|items|, i requires 0 <= i < |items| => Dedupe(items[i]))
  }

  function DedupeMembers(members: seq<Member>): seq<Member>
    decreases members, 0
  {
    seq(|members|, i requires 0 <= i < |members| => Member(members[i].key, Dedupe(members[i].value)))
  }

  function RenameIn(members: seq<Member>): seq<Member> {
    match RecordFields(members)
    case None => members
    case Some(fields) => Set(members, "fields", Arr(Renamed(fields)))
  }

  // ----- the loop over one record's fields -----

  lemma {:induction false} CountConcat(a: seq<Json>, b: seq<Json>, name: string)
    ensures Count(a + b, name) == Count(a, name) + Count(b, name)
  {
    if a == [] {
      assert a + b == b;
    } else {
      assert (a + b)[1..] == a[1..] + b;
      CountConcat(a[1..], b, name);
    }
  }

  lemma CountNothing(fields: seq<Json>)
    ensures forall name :: Count(fields[..0], name) == 0
  {
  }

  lemma CountNext(fields: seq<Json>, k: nat)
    requires k < |fields|
    ensures forall name :: Count(fields[..k + 1], name) ==
                           Count(fields[..k], name) + if NameOf(fields[k]) == Some(name) then 1 else 0
    ensures NameOf(fields[k]).Some? ==> fields[k].Obj?
  {
    assert fields[..k + 1] == fields[..k] + [fields[k]];
    forall name ensures Count(fields[..k + 1], name) ==
                        Count(fields[..k], name) + if NameOf(fields[k]) == Some(name) then 1 else 0 {
      CountConcat(fields[..k], [fields[k]], name);
    }
  }

  /** The pass over a record's fields with its `seen` counters. */
  method RenameDuplicates(fields: seq<Json>) returns (renamed: seq<Json>)
    ensures renamed == Renamed(fields)
  {
    hide NameOf, WithName, DupName, Count;
    renamed := fields;
    CountNothing(fields);
    var seen: map<string, nat> := map[];
    for k := 0 to |fields|
      invariant |renamed| == |fields|
      invariant forall i :: 0 <= i < k ==> renamed[i] == RenamedField(fields, i)
      invariant forall i :: k <= i < |fields| ==> renamed[i] == fields[i]
      invariant forall name :: name in seen ==> seen[name] == Count(fields[..k], name)
      invariant forall name :: name !in seen ==> Count(fields[..k], name) == 0
    {
      var nameOf := NameOf(renamed[k]);
      CountNext(fields, k);
      if nameOf.Some? {
        var name := nameOf.value;
        var count := if name in seen then seen[name] else 0;
        if count > 0 {
          renamed := renamed[k := WithName(renamed[k], DupName(name, count))];
        }
        seen := seen[name := count + 1];
      }
    }
  }

  // ----- lookups -----

  predicate SameKeys(a: seq<Member>, b: seq<Member>) {
    |a| == |b| && forall i :: 0 <= i < |a| ==> a[i].key == b[i].key
  }

  lemma {:induction false} SameFind(a: seq<Member>, b: seq<Member>, key: string)
    requires SameKeys(a, b)
    ensures Find(a, key) == Find(b, key)
  {
    if a != [] {
      SameFind(a[1..], b[1..], key);
    }
  }

  /** Updating one present key leaves every other lookup alone. */
  lemma SetGet(members: seq<Member>, key: string, value: Json, other: string)
    requires Find(members, key) < |members|
    ensures SameKeys(Set(members, key, value), members)
    ensures Get(Set(members, key, value), other) ==
            if other == key then Some(value) else Get(members, other)
  {
    SameFind(Set(members, key, value), members, other);
  }

  lemma DedupeGet(members: seq<Member>, key: string)
    ensures SameKeys(DedupeMembers(members), members)
    ensures Get(DedupeMembers(members), key) ==
            if Get(members, key).Some? then Some(Dedupe(Get(members, key).value)) else None
  {
    SameFind(DedupeMembers(members), members, key);
  }

  lemma DedupeRecordFields(members: seq<Member>)
    ensures RecordFields(DedupeMembers(members)) ==
            if RecordFields(members).Some? then Some(DedupeAll(RecordFields(members).value)) else None
  {
    DedupeGet(members, "type");
    DedupeGet(members, "fields");
  }

  lemma RenameInGet(members: seq<Member>, key: string)
    ensures SameKeys(RenameIn(members), members)
    ensures key != "fields" ==> Get(RenameIn(members), key) == Get(members, key)
    ensures RecordFields(RenameIn(members)) ==
            if RecordFields(members).Some? then Some(Renamed(RecordFields(members).value)) else None
  {
    if RecordFields(members).Some? {
      SetGet(members, "fields", Arr(Renamed(RecordFields(members).value)), key);
      SetGet(members, "fields", Arr(Renamed(RecordFields(members).value)), "type");
      SetGet(members, "fields", Arr(Renamed(RecordFields(members).value)), "fields");
    }
  }

  /** Deduplicating inside a field keeps the field's own name. */
  lemma DedupeKeepsName(field: Json)
    ensures NameOf(Dedupe(field)) == NameOf(field)
  {
    if field.Obj? {
      DedupeGet(field.members, "name");
      RenameInGet(DedupeMembers(field.members), "name");
    }
  }

  lemma WithNameFacts(field: Json, name: string)
    requires NameOf(field).Some?
    ensures NameOf(WithName(field, name)) == Some(name)
    ensures RecordFields(WithName(field, name).members) == RecordFields(field.members)
    ensures SameKeys(WithName(field, name).members, field.members)
  {
    SetGet(field.members, "name", Str(name), "name");
    SetGet(field.members, "name", Str(name), "type");
    SetGet(field.members, "name", Str(name), "fields");
  }

  // ----- the source renames first and recurses afterwards -----

  lemma SetCommutes(members: seq<Member>, k1: string, v1: Json, k2: string, v2: Json)
    requires k1 != k2 && Find(members, k1) < |members| && Find(members, k2) < |members|
    ensures Set(Set(members, k1, v1), k2, v2) == Set(Set(members, k2, v2), k1, v1)
  {
    SetGet(members, k1, v1, k2);
    SetGet(members, k2, v2, k1);
    SameFind(Set(members, k1, v1), members, k2);
    SameFind(Set(members, k2, v2), members, k1);
  }

  lemma DedupeSet(members: seq<Member>, key: string, value: Json)
    requires Find(members, key) < |members|
    ensures DedupeMembers(Set(members, key, value)) == Set(DedupeMembers(members), key, Dedupe(value))
  {
    DedupeGet(members, key);
    SameFind(DedupeMembers(members), members, key);
  }

  lemma RenameInSetName(members: seq<Member>, name: string)
    requires Find(members, "name") < |members|
    ensures RenameIn(Set(members, "name", Str(name))) == Set(RenameIn(members), "name", Str(name))
  {
    SetGet(members, "name", Str(name), "type");
    SetGet(members, "name", Str(name), "fields");
    hide Find, Set, Renamed;
    assert RecordFields(Set(members, "name", Str(name))) == RecordFields(members);
    if RecordFields(members).Some? {
      SetCommutes(members, "name", Str(name), "fields", Arr(Renamed(RecordFields(members).value)));
    }
  }

  lemma DedupeWithName(field: Json, name: string)
    requires NameOf(field).Some?
    ensures Dedupe(WithName(field, name)) == WithName(Dedupe(field), name)
  {
    var members := field.members;
    DedupeSet(members, "name", Str(name));
    DedupeGet(members, "name");
    SameFind(DedupeMembers(members), members, "name");
    RenameInSetName(DedupeMembers(members), name);
  }

  lemma {:induction false} DedupeCount(fields: seq<Json>, name: string)
    ensures Count(DedupeAll(fields), name) == Count(fields, name)
  {
    if fields != [] {
      DedupeKeepsName(fields[0]);
      assert DedupeAll(fields)[1..] == DedupeAll(fields[1..]);
      DedupeCount(fields[1..], name);
    }
  }

  lemma RenamedCommutes(fields: seq<Json>)
    ensures DedupeAll(Renamed(fields)) == Renamed(DedupeAll(fields))
  {
    forall k | 0 <= k < |fields| ensures Dedupe(RenamedField(fields, k)) == RenamedField(DedupeAll(fields), k) {
      DedupeKeepsName(fields[k]);
      assert DedupeAll(fields)[..k] == DedupeAll(fields[..k]);
      if NameOf(fields[k]).Some? {
        DedupeCount(fields[..k], NameOf(fields[k]).value);
        DedupeWithName(fields[k], NewName(fields, k).value);
      }
    }
  }

  lemma RenameInCommutes(members: seq<Member>)
    ensures DedupeMembers(RenameIn(members)) == RenameIn(DedupeMembers(members))
  {
    DedupeRecordFields(members);
    if RecordFields(members).Some? {
      var fields := RecordFields(members).value;
      RenamedCommutes(fields);
      SameFind(DedupeMembers(members), members, "fields");
      assert Dedupe(Arr(Renamed(fields))) == Arr(Renamed(DedupeAll(fields)));
    }
  }

  // ----- the recursive method -----

  function Size(value: Json): nat
    decreases value, 1
  {
    match value
    case Arr(items) => 1 + SizeAll(items)
    case Obj(members) => 1 + SizeMembers(members)
    case _ => 1
  }

  function SizeAll(items: seq<Json>): nat
    decreases items, 0
  {
    if items == [] then 0 else Size(items[0]) + SizeAll(items[1..])
  }

  function SizeMembers(members: seq<Member>): nat
    decreases members, 0
  {
    if members == [] then 0 else Size(members[0].value) + SizeMembers(members[1..])
  }

  lemma {:induction false} SizeAllAt(items: seq<Json>, i: nat)
    requires i < |items|
    ensures Size(items[i]) <= SizeAll(items)
  {
    if i > 0 {
      SizeAllAt(items[1..], i - 1);
    }
  }

  lemma {:induction false} SizeMembersAt(members: seq<Member>, i: nat)
    requires i < |members|
    ensures Size(members[i].value) <= SizeMembers(members)
  {
    if i > 0 {
      SizeMembersAt(members[1..], i - 1);
    }
  }

  lemma {:induction false} SameSizeMembers(a: seq<Member>, b: seq<Member>)
    requires |a| == |b| && forall i :: 0 <= i < |a| ==> Size(a[i].value) == Size(b[i].value)
    ensures SizeMembers(a) == SizeMembers(b)
  {
    if a != [] {
      SameSizeMembers(a[1..], b[1..]);
    }
  }

  lemma {:induction false} SameSizeAll(a: seq<Json>, b: seq<Json>)
    requires |a| == |b| && forall i :: 0 <= i < |a| ==> Size(a[i]) == Size(b[i])
    ensures SizeAll(a) == SizeAll(b)
  {
    if a != [] {
      SameSizeAll(a[1..], b[1..]);
    }
  }

  lemma RenamedSize(fields: seq<Json>)
    ensures SizeAll(Renamed(fields)) == SizeAll(fields)
  {
    forall k | 0 <= k < |fields| ensures Size(RenamedField(fields, k)) == Size(fields[k]) {
      if NameOf(fields[k]).Some? {
        SameSizeMembers(WithName(fields[k], NewName(fields, k).value).members, fields[k].members);
      }
    }
    SameSizeAll(Renamed(fields), fields);
  }

  lemma RenameInSize(members: seq<Member>)
    ensures SizeMembers(RenameIn(members)) == SizeMembers(members)
  {
    if RecordFields(members).Some? {
      RenamedSize(RecordFields(members).value);
      SameSizeMembers(RenameIn(members), members);
    }
  }

  /** `dedupe_record_field_names`: renames this record's fields, then recurses into every value,
      which comes to the same as doing the inner values first. */
  method DedupeRecordFieldNames(value: Json) returns (result: Json)
    ensures result == Dedupe(value)
    decreases Size(value)
  {
    match value {
      case Obj(members) =>
        var map_ := members;
        var fields := RecordFields(map_);
        if fields.Some? {
          var renamed := RenameDuplicates(fields.value);
          map_ := Set(map_, "fields", Arr(renamed));
        }
        RenameInSize(members);
        RenameInCommutes(members);
        var updated := map_;
        for i := 0 to |map_|
          invariant |updated| == |map_|
          invariant forall j :: 0 <= j < i ==> updated[j] == Member(map_[j].key, Dedupe(map_[j].value))
          invariant forall j :: i <= j < |map_| ==> updated[j] == map_[j]
        {
          SizeMembersAt(map_, i);
          var v := DedupeRecordFieldNames(updated[i].value);
          updated := updated[i := Member(updated[i].key, v)];
        }
        assert updated == DedupeMembers(map_);
        result := Obj(updated);
      case Arr(items) =>
        var updated := items;
        for i := 0 to |items|
          invariant |updated| == |items|
          invariant forall j :: 0 <= j < i ==> updated[j] == Dedupe(items[j])
          invariant forall j :: i <= j < |items| ==> updated[j] == items[j]
        {
          SizeAllAt(items, i);
          var v := DedupeRecordFieldNames(updated[i]);
          updated := updated[i := v];
        }
        assert updated == DedupeAll(items);
        result := Arr(updated);
      case _ =>
        result := value;
    }
  }
}
