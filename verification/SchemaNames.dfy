// What deduplication achieves: distinct field names in every record, and nothing else changed.
// Source: src/alert/winter.rs (dedupe_record_field_names).
module SchemaNames {
  import opened Wrappers
  import opened SchemaDedupe

  // ----- generated names are unambiguous -----

  predicate AllDigits(s: string) {
    forall i :: 0 <= i < |s| ==> '0' <= s[i] <= '9'
  }

  lemma {:induction false} DecimalDigits(n: nat)
    ensures AllDigits(Decimal(n)) && |Decimal(n)| >= 1
  {
    if n >= 10 {
      DecimalDigits(n / 10);
    }
  }

  lemma {:induction false} DecimalInjective(m: nat, n: nat)
    requires Decimal(m) == Decimal(n)
    ensures m == n
  {
    if m >= 10 {
      DecimalDigits(m / 10);
    }
    if n >= 10 {
      DecimalDigits(n / 10);
    }
    assert Decimal(m)[|Decimal(m)| - 1] == Decimal(n)[|Decimal(n)| - 1];
    assert m % 10 == n % 10;
    if m >= 10 && n >= 10 {
      assert Decimal(m)[..|Decimal(m)| - 1] == Decimal(m / 10);
      assert Decimal(n)[..|Decimal(n)| - 1] == Decimal(n / 10);
      DecimalInjective(m / 10, n / 10);
    }
  }

  /** The digits at the end of a generated name can be told from what precedes them. */
  lemma SuffixLength(a: string, c: string, b: string, d: string)
    requires a + "__dup" + c == b + "__dup" + d && AllDigits(c) && AllDigits(d)
    ensures |c| >= |d|
  {
    var s := a + "__dup" + c;
    var k := |a| + 4;
    assert s[k] == 'p';
    assert forall i :: |b| + 5 <= i < |s| ==> s[i] == d[i - |b| - 5];
  }

  lemma DupNameInjective(m: string, i: nat, n: string, j: nat)
    requires DupName(m, i) == DupName(n, j)
    ensures m == n && i == j
  {
    DecimalDigits(i);
    DecimalDigits(j);
    SuffixLength(m, Decimal(i), n, Decimal(j));
    SuffixLength(n, Decimal(j), m, Decimal(i));
    var s := DupName(m, i);
    assert s[|s| - |Decimal(i)|..] == Decimal(i);
    assert s[|s| - |Decimal(j)|..] == Decimal(j);
    DecimalInjective(i, j);
    assert s[..|m|] == m && s[..|n|] == n;
  }

  // ----- one record -----

  ghost predicate DistinctNames(fields: seq<Json>) {
    forall i, j :: 0 <= i < j < |fields| && NameOf(fields[i]).Some? ==> NameOf(fields[i]) != NameOf(fields[j])
  }

  /** No field is already called what a duplicate of another field will be renamed to. */
  ghost predicate NoClash(fields: seq<Json>) {
    forall i: nat, j: nat :: i < |fields| && j < |fields| && NameOf(fields[i]).Some? && NameOf(fields[j]).Some? ==>
      !GeneratedFrom(fields, NameOf(fields[i]).value, NameOf(fields[j]).value)
  }

  ghost predicate GeneratedFrom(fields: seq<Json>, target: string, name: string) {
    exists c: nat :: 1 <= c < Count(fields, name) && target == DupName(name, c)
  }

  lemma {:induction false} CountPrefix(fields: seq<Json>, k: nat, name: string)
    requires k < |fields|
    ensures Count(fields[..k], name) <= Count(fields, name)
    ensures NameOf(fields[k]) == Some(name) ==> Count(fields[..k], name) < Count(fields, name)
  {
    assert fields == fields[..k] + fields[k..];
    CountConcat(fields[..k], fields[k..], name);
  }

  lemma CountBefore(fields: seq<Json>, i: nat, j: nat, name: string)
    requires i < j <= |fields| && NameOf(fields[i]) == Some(name)
    ensures Count(fields[..i], name) < Count(fields[..j], name)
  {
    CountPrefix(fields[..j], i, name);
    assert fields[..j][..i] == fields[..i];
  }

  /** The occurrence of a name that has exactly `c` before it. */
  lemma {:induction false} Occurrence(fields: seq<Json>, name: string, c: nat) returns (k: nat)
    requires c < Count(fields, name)
    ensures k < |fields| && NameOf(fields[k]) == Some(name) && Count(fields[..k], name) == c
  {
    var last := |fields| - 1;
    assert fields == fields[..last] + [fields[last]];
    CountConcat(fields[..last], [fields[last]], name);
    if c < Count(fields[..last], name) {
      k := Occurrence(fields[..last], name, c);
      assert fields[..last][..k] == fields[..k];
    } else {
      k := last;
    }
  }

  lemma RenamedName(fields: seq<Json>, k: nat)
    requires k < |fields|
    ensures NameOf(Renamed(fields)[k]) == NewName(fields, k)
  {
    if NameOf(fields[k]).Some? {
      WithNameFacts(fields[k], NewName(fields, k).value);
    }
  }

  lemma TwoNamesDiffer(fields: seq<Json>, i: nat, j: nat)
    requires NoClash(fields) && i < j < |fields| && NameOf(fields[i]).Some? && NameOf(fields[j]).Some?
    ensures NewName(fields, i) != NewName(fields, j)
  {
    var m, n := NameOf(fields[i]).value, NameOf(fields[j]).value;
    var a, b := Count(fields[..i], m), Count(fields[..j], n);
    CountPrefix(fields, i, m);
    CountPrefix(fields, j, n);
    if m == n {
      CountBefore(fields, i, j, m);
    }
    if a > 0 && b > 0 && DupName(m, a) == DupName(n, b) {
      DupNameInjective(m, a, n, b);
    }
    assert !GeneratedFrom(fields, m, n);
    assert !GeneratedFrom(fields, n, m);
  }

  lemma ClashCollides(fields: seq<Json>, i: nat, j: nat)
    requires i < |fields| && j < |fields| && NameOf(fields[i]).Some? && NameOf(fields[j]).Some?
    requires GeneratedFrom(fields, NameOf(fields[i]).value, NameOf(fields[j]).value)
    ensures !DistinctNames(Renamed(fields))
  {
    var m, n := NameOf(fields[i]).value, NameOf(fields[j]).value;
    var c: nat :| 1 <= c < Count(fields, n) && m == DupName(n, c);
    var k := Occurrence(fields, n, c);
    CountPrefix(fields, i, m);
    var first := Occurrence(fields, m, 0);
    RenamedName(fields, k);
    RenamedName(fields, first);
    assert |m| > |n|;
  }

  /** Renaming makes the field names of a record distinct exactly when no field already carries a
      generated name. */
  lemma RenamedDistinctExactly(fields: seq<Json>)
    ensures DistinctNames(Renamed(fields)) <==> NoClash(fields)
  {
    if NoClash(fields) {
      forall i, j | 0 <= i < j < |fields| && NameOf(Renamed(fields)[i]).Some?
        ensures NameOf(Renamed(fields)[i]) != NameOf(Renamed(fields)[j])
      {
        RenamedName(fields, i);
        RenamedName(fields, j);
        if NameOf(fields[j]).Some? {
          TwoNamesDiffer(fields, i, j);
        }
      }
    } else {
      var i: nat, j: nat :| i < |fields| && j < |fields| && NameOf(fields[i]).Some? &&
        NameOf(fields[j]).Some? && GeneratedFrom(fields, NameOf(fields[i]).value, NameOf(fields[j]).value);
      ClashCollides(fields, i, j);
    }
  }

  lemma {:induction false} CountZero(fields: seq<Json>, name: string)
    requires forall i :: 0 <= i < |fields| ==> NameOf(fields[i]) != Some(name)
    ensures Count(fields, name) == 0
  {
    if fields != [] {
      CountZero(fields[1..], name);
    }
  }

  /** A field whose name an earlier field has gets another name. */
  lemma RepeatIsRenamed(fields: seq<Json>, i: nat, j: nat)
    requires i < j < |fields| && NameOf(fields[i]).Some? && NameOf(fields[i]) == NameOf(fields[j])
    ensures NameOf(Renamed(fields)[j]) != NameOf(fields[j])
  {
    hide NameOf, Count, Renamed;
    var name := NameOf(fields[j]).value;
    RenamedName(fields, j);
    CountBefore(fields, i, j, name);
    assert |DupName(name, Count(fields[..j], name))| > |name|;
  }

  /** Distinct names are left alone, and only they are. */
  lemma RenamedFixpoint(fields: seq<Json>)
    ensures DistinctNames(fields) ==> Renamed(fields) == fields
    ensures !DistinctNames(fields) ==>
              exists k :: 0 <= k < |fields| && NameOf(Renamed(fields)[k]) != NameOf(fields[k])
  {
    hide NameOf, Count;
    if DistinctNames(fields) {
      forall k | 0 <= k < |fields| ensures RenamedField(fields, k) == fields[k] {
        if NameOf(fields[k]).Some? {
          CountZero(fields[..k], NameOf(fields[k]).value);
        }
      }
    } else {
      var i, j :| 0 <= i < j < |fields| && NameOf(fields[i]).Some? && NameOf(fields[i]) == NameOf(fields[j]);
      hide *;
      RepeatIsRenamed(fields, i, j);
    }
  }

  // ----- every record, at any depth -----

  /** Every record's field names are distinct. */
  ghost predicate AllDistinct(value: Json)
    decreases value
  {
    match value
    case Arr(items) => forall i :: 0 <= i < |items| ==> AllDistinct(items[i])
    case Obj(members) =>
      (RecordFields(members).Some? ==> DistinctNames(RecordFields(members).value)) &&
      forall i :: 0 <= i < |members| ==> AllDistinct(members[i].value)
    case _ => true
  }

  /** In no record is a field already called what a duplicate would be renamed to. */
  ghost predicate AllNoClash(value: Json)
    decreases value
  {
    match value
    case Arr(items) => forall i :: 0 <= i < |items| ==> AllNoClash(items[i])
    case Obj(members) =>
      (RecordFields(members).Some? ==> NoClash(RecordFields(members).value)) &&
      forall i :: 0 <= i < |members| ==> AllNoClash(members[i].value)
    case _ => true
  }

  lemma DedupeNoClash(fields: seq<Json>)
    ensures NoClash(DedupeAll(fields)) <==> NoClash(fields)
  {
    forall i | 0 <= i < |fields| ensures NameOf(DedupeAll(fields)[i]) == NameOf(fields[i]) {
      DedupeKeepsName(fields[i]);
    }
    forall target, name
      ensures GeneratedFrom(DedupeAll(fields), target, name) <==> GeneratedFrom(fields, target, name)
    {
      DedupeCount(fields, name);
    }
  }

  /** Giving a field a name does not touch the records inside it. */
  lemma WithNameDistinct(field: Json, name: string)
    requires NameOf(field).Some?
    ensures AllDistinct(WithName(field, name)) <==> AllDistinct(field)
  {
    WithNameFacts(field, name);
    var i := Find(field.members, "name");
    var renamed := WithName(field, name).members;
    assert renamed == field.members[i := Member("name", Str(name))];
    assert AllDistinct(renamed[i].value) && AllDistinct(field.members[i].value);
    forall j | 0 <= j < |renamed| && j != i ensures renamed[j] == field.members[j] {
    }
    if AllDistinct(field) {
      forall j | 0 <= j < |renamed| ensures AllDistinct(renamed[j].value) {
        assert j != i ==> AllDistinct(field.members[j].value);
      }
    }
    if AllDistinct(WithName(field, name)) {
      forall j | 0 <= j < |renamed| ensures AllDistinct(field.members[j].value) {
        assert j != i ==> AllDistinct(renamed[j].value);
      }
    }
  }

  lemma RenamedFieldDistinct(fields: seq<Json>, k: nat)
    requires k < |fields|
    ensures AllDistinct(RenamedField(fields, k)) <==> AllDistinct(fields[k])
  {
    if NameOf(fields[k]).Some? {
      WithNameDistinct(fields[k], NewName(fields, k).value);
    }
  }

  lemma RenamedAllDistinct(fields: seq<Json>)
    ensures AllDistinct(Arr(Renamed(fields))) <==> AllDistinct(Arr(fields))
  {
    forall k | 0 <= k < |fields| ensures AllDistinct(Renamed(fields)[k]) <==> AllDistinct(fields[k]) {
      RenamedFieldDistinct(fields, k);
    }
    if AllDistinct(Arr(fields)) {
      forall k | 0 <= k < |fields| ensures AllDistinct(Renamed(fields)[k]) {
        assert AllDistinct(fields[k]);
      }
    }
    if AllDistinct(Arr(Renamed(fields))) {
      forall k | 0 <= k < |fields| ensures AllDistinct(fields[k]) {
        assert AllDistinct(Renamed(fields)[k]);
      }
    }
  }

  /** Renaming in a record does not touch the records inside its values. */
  lemma RenameInDistinct(members: seq<Member>, i: nat)
    requires i < |members|
    ensures |RenameIn(members)| == |members|
    ensures AllDistinct(RenameIn(members)[i].value) <==> AllDistinct(members[i].value)
  {
    RenameInGet(members, "type");
    if RecordFields(members).Some? && i == Find(members, "fields") {
      RenamedAllDistinct(RecordFields(members).value);
    }
  }

  /** At any nesting depth, deduplication leaves distinct field names in every record exactly when
      no record had a field already carrying a generated name. */
  lemma {:induction false} DedupeDistinctExactly(value: Json)
    ensures AllDistinct(Dedupe(value)) <==> AllNoClash(value)
    decreases value, 1
  {
    match value
    case Arr(items) =>
      forall i | 0 <= i < |items| ensures AllDistinct(DedupeAll(items)[i]) <==> AllNoClash(items[i]) {
        DedupeDistinctExactly(items[i]);
      }
      ArrExactly(items);
    case Obj(members) =>
      forall i | 0 <= i < |members|
        ensures |RenameIn(DedupeMembers(members))| == |members|
        ensures AllDistinct(RenameIn(DedupeMembers(members))[i].value) <==> AllNoClash(members[i].value)
      {
        RenameInDistinct(DedupeMembers(members), i);
        DedupeDistinctExactly(members[i].value);
      }
      ObjExactly(members);
    case _ =>
  }

  lemma ArrExactly(items: seq<Json>)
    requires forall i :: 0 <= i < |items| ==> (AllDistinct(DedupeAll(items)[i]) <==> AllNoClash(items[i]))
    ensures AllDistinct(Dedupe(Arr(items))) <==> AllNoClash(Arr(items))
  {
    var all := DedupeAll(items);
    assert Dedupe(Arr(items)) == Arr(all) && |all| == |items|;
    hide Dedupe, DedupeAll;
    if AllNoClash(Arr(items)) {
      forall i | 0 <= i < |items| ensures AllDistinct(DedupeAll(items)[i]) {
        assert AllNoClash(items[i]);
      }
    }
    if AllDistinct(Arr(DedupeAll(items))) {
      forall i | 0 <= i < |items| ensures AllNoClash(items[i]) {
        assert AllDistinct(DedupeAll(items)[i]);
      }
    }
  }

  lemma ObjExactly(members: seq<Member>)
    requires |RenameIn(DedupeMembers(members))| == |members|
    requires forall i :: 0 <= i < |members| ==>
               (AllDistinct(RenameIn(DedupeMembers(members))[i].value) <==> AllNoClash(members[i].value))
    ensures AllDistinct(Dedupe(Obj(members))) <==> AllNoClash(Obj(members))
  {
    var after := RenameIn(DedupeMembers(members));
    DedupeRecordFields(members);
    RenameInGet(DedupeMembers(members), "type");
    if RecordFields(members).Some? {
      DedupeNoClash(RecordFields(members).value);
      RenamedDistinctExactly(DedupeAll(RecordFields(members).value));
    }
    assert Dedupe(Obj(members)) == Obj(after);
    hide Dedupe, DedupeMembers, RenameIn, RecordFields, DistinctNames, NoClash, Renamed;
    if AllNoClash(Obj(members)) {
      forall i | 0 <= i < |members| ensures AllDistinct(after[i].value) {
        assert AllNoClash(members[i].value);
      }
    }
    if AllDistinct(Obj(after)) {
      forall i | 0 <= i < |members| ensures AllNoClash(members[i].value) {
        assert AllDistinct(after[i].value);
      }
    }
  }

  // ----- idempotence -----

  lemma {:induction false} CleanIsFixed(value: Json)
    requires AllDistinct(value)
    ensures Dedupe(value) == value
    decreases value, 1
  {
    match value
    case Arr(items) =>
      forall i | 0 <= i < |items| ensures Dedupe(items[i]) == items[i] {
        CleanIsFixed(items[i]);
      }
      assert DedupeAll(items) == items;
    case Obj(members) =>
      forall i | 0 <= i < |members| ensures Dedupe(members[i].value) == members[i].value {
        CleanIsFixed(members[i].value);
      }
      assert DedupeMembers(members) == members;
      if RecordFields(members).Some? {
        RenamedFixpoint(RecordFields(members).value);
      }
    case _ =>
  }

  /** A record that deduplication leaves as it is had distinct names, and so had its values. */
  lemma {:induction false} FixedIsClean(value: Json)
    requires Dedupe(value) == value
    ensures AllDistinct(value)
    decreases value, 1
  {
    match value
    case Arr(items) =>
      forall i | 0 <= i < |items| ensures AllDistinct(items[i]) {
        assert DedupeAll(items)[i] == items[i];
        FixedIsClean(items[i]);
      }
    case Obj(members) =>
      FixedRecord(members);
      forall i | 0 <= i < |members| ensures AllDistinct(members[i].value) {
        assert DedupeMembers(members)[i] == members[i];
        FixedIsClean(members[i].value);
      }
    case _ =>
  }

  lemma FixedRecord(members: seq<Member>)
    requires RenameIn(DedupeMembers(members)) == members
    ensures DedupeMembers(members) == members
    ensures RecordFields(members).Some? ==> DistinctNames(RecordFields(members).value)
  {
    DedupeRecordFields(members);
    RenameInGet(DedupeMembers(members), "type");
    if RecordFields(members).Some? {
      var fields := RecordFields(members).value;
      assert Renamed(DedupeAll(fields)) == fields;
      forall k | 0 <= k < |fields| ensures NameOf(DedupeAll(fields)[k]) == NameOf(fields[k]) {
        DedupeKeepsName(fields[k]);
      }
      RenamedFixpoint(DedupeAll(fields));
      var i := Find(members, "fields");
      DedupeGet(members, "fields");
      SameFind(DedupeMembers(members), members, "fields");
      assert members == DedupeMembers(members)[i := Member("fields", Arr(fields))];
      assert DedupeMembers(members)[i] == Member("fields", Arr(DedupeAll(fields)));
    }
  }

  /** Deduplicating twice is deduplicating once exactly when no field already carried a generated
      name. */
  lemma DedupeIdempotentExactly(value: Json)
    ensures Dedupe(Dedupe(value)) == Dedupe(value) <==> AllNoClash(value)
  {
    DedupeDistinctExactly(value);
    if AllNoClash(value) {
      CleanIsFixed(Dedupe(value));
    }
    if Dedupe(Dedupe(value)) == Dedupe(value) {
      FixedIsClean(Dedupe(value));
    }
  }

  /** An already clean schema has no clash, so on it deduplication is idempotent, as the source
      says. */
  lemma CleanHasNoClash(value: Json)
    requires AllDistinct(value)
    ensures AllNoClash(value)
  {
    CleanIsFixed(value);
    DedupeDistinctExactly(value);
  }

  // ----- the condition a schema author can see -----

  predicate DupAt(name: string, i: nat) {
    i + 5 <= |name| && name[i..i + 5] == "__dup"
  }

  predicate HasDup(name: string) {
    exists i :: 0 <= i < |name| && DupAt(name, i)
  }

  /** No record has a field whose name contains `__dup`. */
  predicate NoDupInNames(value: Json)
    decreases value
  {
    match value
    case Arr(items) => forall i :: 0 <= i < |items| ==> NoDupInNames(items[i])
    case Obj(members) =>
      (RecordFields(members).Some? ==>
         var fields := RecordFields(members).value;
         forall k :: 0 <= k < |fields| && NameOf(fields[k]).Some? ==> !HasDup(NameOf(fields[k]).value)) &&
      forall i :: 0 <= i < |members| ==> NoDupInNames(members[i].value)
    case _ => true
  }

  lemma DupNameHasDup(name: string, c: nat)
    ensures HasDup(DupName(name, c))
  {
    assert DupAt(DupName(name, c), |name|);
  }

  lemma {:induction false} NoDupMeansNoClash(value: Json)
    requires NoDupInNames(value)
    ensures AllNoClash(value)
    decreases value
  {
    match value
    case Arr(items) =>
      forall i | 0 <= i < |items| ensures AllNoClash(items[i]) {
        NoDupMeansNoClash(items[i]);
      }
    case Obj(members) =>
      forall i | 0 <= i < |members| ensures AllNoClash(members[i].value) {
        NoDupMeansNoClash(members[i].value);
      }
      forall target, name, c: nat ensures target == DupName(name, c) ==> HasDup(target) {
        DupNameHasDup(name, c);
      }
    case _ =>
  }

  /** The input on which deduplication leaves a duplicate behind. */
  lemma ClashExample(x: Json, y: Json)
    requires NameOf(x) == Some("x") && NameOf(y) == Some("x__dup1")
    ensures !DistinctNames(Renamed([x, x, y]))
  {
    var fields := [x, x, y];
    assert fields[1..] == [x, y] && [x, y][1..] == [y] && [y][1..] == [];
    assert |"x__dup1"| != |"x"|;
    assert Count([y], "x") == 0 && Count([x, y], "x") == 1;
    CountConcat([x], [x, y], "x");
    assert [x] + [x, y] == fields;
    assert Decimal(1) == "1";
    assert DupName("x", 1) == "x__dup1";
    assert GeneratedFrom(fields, "x__dup1", "x");
    ClashCollides(fields, 2, 0);
  }

  // ----- nothing else changes -----

  /** Equal but for string values of `name` members, which may have gained a `__dup` suffix. */
  predicate SameButNames(before: Json, after: Json)
    decreases before
  {
    match before
    case Arr(items) =>
      after.Arr? && |after.items| == |items| &&
      forall i :: 0 <= i < |items| ==> SameButNames(items[i], after.items[i])
    case Obj(members) =>
      after.Obj? && |after.members| == |members| &&
      forall i :: 0 <= i < |members| ==>
        members[i].key == after.members[i].key &&
        (SameButNames(members[i].value, after.members[i].value) ||
         (members[i].key == "name" && members[i].value.Str? && after.members[i].value.Str? &&
          members[i].value.text + "__dup" <= after.members[i].value.text))
    case _ => before == after
  }

  lemma {:induction false} SameAsSelf(value: Json)
    ensures SameButNames(value, value)
    decreases value
  {
    match value
    case Arr(items) =>
      forall i | 0 <= i < |items| ensures SameButNames(items[i], items[i]) {
        SameAsSelf(items[i]);
      }
    case Obj(members) =>
      forall i | 0 <= i < |members| ensures SameButNames(members[i].value, members[i].value) {
        SameAsSelf(members[i].value);
      }
    case _ =>
  }

  lemma RenamedFieldSame(before: Json, fields: seq<Json>, k: nat)
    requires k < |fields| && SameButNames(before, fields[k]) && NameOf(before) == NameOf(fields[k])
    ensures SameButNames(before, RenamedField(fields, k))
  {
    if RenamedField(fields, k) != fields[k] {
      var i := Find(fields[k].members, "name");
      SameFind(before.members, fields[k].members, "name");
      var after := RenamedField(fields, k).members;
      assert after == fields[k].members[i := Member("name", Str(NewName(fields, k).value))];
      forall j | 0 <= j < |after| && j != i ensures after[j] == fields[k].members[j] {
      }
    }
  }

  lemma RenamedSame(before: seq<Json>, fields: seq<Json>)
    requires SameButNames(Arr(before), Arr(fields))
    requires forall k :: 0 <= k < |fields| ==> NameOf(before[k]) == NameOf(fields[k])
    ensures SameButNames(Arr(before), Arr(Renamed(fields)))
  {
    forall k | 0 <= k < |fields| ensures SameButNames(before[k], Renamed(fields)[k]) {
      RenamedFieldSame(before[k], fields, k);
    }
  }

  /** Field count, order, types and everything else are preserved: only duplicate names gain a
      suffix. */
  lemma {:induction false} DedupePreserves(value: Json)
    ensures SameButNames(value, Dedupe(value))
    decreases value, 1
  {
    match value
    case Arr(items) => DedupeAllPreserves(items);
    case Obj(members) =>
      var inner := DedupeMembers(members);
      forall i | 0 <= i < |members| ensures SameButNames(members[i].value, inner[i].value) {
        DedupePreserves(members[i].value);
      }
      DedupeRecordFields(members);
      if RecordFields(members).Some? {
        var fields := RecordFields(members).value;
        forall k | 0 <= k < |fields| ensures NameOf(DedupeAll(fields)[k]) == NameOf(fields[k]) {
          DedupeKeepsName(fields[k]);
        }
        SameFind(inner, members, "fields");
        RenamedSame(fields, DedupeAll(fields));
      }
    case _ =>
  }

  lemma {:induction false} DedupeAllPreserves(items: seq<Json>)
    ensures SameButNames(Arr(items), Arr(DedupeAll(items)))
    decreases items, 0
  {
    forall i | 0 <= i < |items| ensures SameButNames(items[i], DedupeAll(items)[i]) {
      DedupePreserves(items[i]);
    }
  }
}
