/** Entity and institution settings: which keys a patch may touch, how it is merged, and how
    the effective value cascades from entity to institution to platform. */
module Customization {
  import opened Results
  import opened SettingsTree

  const INSTITUTION_ONLY: set<string> := {
    "auth", "auth.sso", "auth.mfa", "oauthGoogle", "mfa", "sso", "dataRetention", "audit", "auditLog",
    "billing", "subscription", "payment.credentials"}

  const BRANDING_KEYS: set<string> := {"branding.primaryColor", "branding.logoUrl", "branding.customDomain"}
  const ACADEMIC_KEYS: set<string> := {
    "grading.system", "academic.semesterLabels", "academic.calendarOffsetDays", "academic.calendar"}
  const FINANCE_KEYS: set<string> := {"finance.feeStructures"}
  const PLAIN_KEYS: set<string> := {
    "logoUrl", "primaryColor", "customDomain", "studentNumberFormat", "paymentGateway", "modules"}

  const OVERRIDABLE: set<string> := BRANDING_KEYS + ACADEMIC_KEYS + FINANCE_KEYS + PLAIN_KEYS

  const ALIASES: map<string, seq<string>> := map[
    "branding.logoUrl" := ["logoUrl"], "branding.primaryColor" := ["primaryColor"],
    "branding.customDomain" := ["customDomain"], "paymentGateway" := ["paymentGateway"]]

  function PlatformDefaults(): map<string, Json> {
    map[
      "branding.primaryColor" := Str("#1e3a5f"), "branding.logoUrl" := Null, "branding.customDomain" := Null,
      "studentNumberFormat" := Str("EXT/{year}/[SEQ:4]"), "grading.system" := Str("PERCENTAGE"),
      "academic.semesterLabels" := Arr([Str("Semester 1"), Str("Semester 2")]),
      "academic.calendarOffsetDays" := Num(0.0), "academic.calendar" := Obj(map["termStartOffsets" := Arr([])]),
      "notifications.digestMode" := Bool(false), "integrations.zoom" := Obj(map["enabled" := Bool(false)]),
      "integrations.whatsapp" := Obj(map["enabled" := Bool(false)]),
      "integrations.calendar" := Obj(map["provider" := Str("none")]), "paymentGateway" := Str("noop")]
  }

  function Root(key: string): string { Split(key)[0] }

  predicate IsInstitutionOnlyKey(key: string) { key in INSTITUTION_ONLY || Root(key) in INSTITUTION_ONLY }

  predicate EntityMayOverride(key: string) {
    !IsInstitutionOnlyKey(key) && (key in OVERRIDABLE || Root(key) in OVERRIDABLE)
  }

  // ---- patches -------------------------------------------------------------------------

  /** A patch as `Object.entries` lists it. */
  type Patch = seq<(string, Json)>

  function Extend(prefix: string, segment: string): string {
    if prefix == "" then segment else prefix + "." + segment
  }

  /** The dotted paths of the leaves of a value found under a path; an object without fields
      has none. */
  function LeafKeys(path: string, value: Json): set<string>
    decreases value
  {
    if value.Obj? then set k, leaf | k in value.fields && leaf in LeafKeys(Extend(path, k), value.fields[k]) :: leaf
    else {path}
  }

  function FlattenedKeys(patch: Patch): set<string> {
    if patch == [] then {}
    else FlattenedKeys(patch[..|patch| - 1]) + LeafKeys(patch[|patch| - 1].0, patch[|patch| - 1].1)
  }

  predicate Accepted(patch: Patch) { forall key :: key in FlattenedKeys(patch) ==> EntityMayOverride(key) }

  ghost function LeavesOver(fields: Fields, prefix: string, segments: set<string>): set<string> {
    set k, leaf | k in segments && k in fields && leaf in LeafKeys(Extend(prefix, k), fields[k]) :: leaf
  }

  lemma LeavesOverMore(fields: Fields, prefix: string, segments: set<string>, segment: string)
    requires segment in fields
    ensures LeavesOver(fields, prefix, segments + {segment})
            == LeavesOver(fields, prefix, segments) + LeafKeys(Extend(prefix, segment), fields[segment])
  {
    var more := LeavesOver(fields, prefix, segments + {segment});
    forall leaf | leaf in LeafKeys(Extend(prefix, segment), fields[segment]) ensures leaf in more {
      assert segment in segments + {segment};
    }
    forall leaf | leaf in LeavesOver(fields, prefix, segments) ensures leaf in more {
      var k :| k in segments && k in fields && leaf in LeafKeys(Extend(prefix, k), fields[k]);
      assert k in segments + {segment};
    }
  }

  lemma MembersConcat<T>(a: seq<T>, b: seq<T>)
    ensures (set x | x in a + b) == (set x | x in a) + (set x | x in b)
  {
  }

  /** The keys in some order, for validation one by one. */
  method FlattenObject(fields: Fields, prefix: string) returns (keys: seq<string>)
    ensures (set k | k in keys) == LeafKeys(prefix, Obj(fields))
    decreases Obj(fields)
  {
    keys := [];
    var todo := fields.Keys;
    ghost var done: set<string> := {};
    while todo != {}
      invariant todo !! done && todo + done == fields.Keys
      invariant (set k | k in keys) == LeavesOver(fields, prefix, done)
      decreases todo
    {
      var segment :| segment in todo;
      var path, value := Extend(prefix, segment), fields[segment];
      LeavesOverMore(fields, prefix, done, segment);
      if value.Obj? {
        var inner := FlattenObject(value.fields, path);
        MembersConcat(keys, inner);
        keys := keys + inner;
      } else {
        MembersConcat(keys, [path]);
        keys := keys + [path];
      }
      todo, done := todo - {segment}, done + {segment};
    }
    assert LeavesOver(fields, prefix, done) == LeafKeys(prefix, Obj(fields));
  }

  method FlattenPatchKeys(patch: Patch) returns (keys: seq<string>)
    ensures (set k | k in keys) == FlattenedKeys(patch)
  {
    keys := [];
    for i := 0 to |patch|
      invariant (set k | k in keys) == FlattenedKeys(patch[..i])
    {
      assert patch[..i + 1][..i] == patch[..i];
      var path, value := patch[i].0, patch[i].1;
      if value.Obj? {
        var inner := FlattenObject(value.fields, path);
        MembersConcat(keys, inner);
        keys := keys + inner;
      } else {
        MembersConcat(keys, [path]);
        keys := keys + [path];
      }
    }
    assert patch[..|patch|] == patch;
  }

  function MergedValue(out: Fields, key: string, value: Json): Json {
    var prev := GetNested(Some(Obj(out)), key);
    if value.Obj? && prev.Some? && prev.value.Obj? then Obj(prev.value.fields + value.fields) else value
  }

  function MergeEntry(out: Fields, key: string, value: Json): Fields {
    SetNestedValue(out, key, MergedValue(out, key, value))
  }

  function MergeEntries(base: Fields, patch: Patch): Fields {
    if patch == [] then base
    else MergeEntry(MergeEntries(base, patch[..|patch| - 1]), patch[|patch| - 1].0, patch[|patch| - 1].1)
  }

  function BaseFields(existing: Option<Json>): Fields {
    if existing.Some? && existing.value.Obj? then existing.value.fields else map[]
  }

  method MergeSettingsPatch(existing: Option<Json>, patch: Patch) returns (merged: Fields)
    ensures merged == MergeEntries(BaseFields(existing), patch)
  {
    var out := BaseFields(existing);
    for i := 0 to |patch|
      invariant out == MergeEntries(BaseFields(existing), patch[..i])
    {
      assert patch[..i + 1][..i] == patch[..i];
      var key, value := patch[i].0, patch[i].1;
      if value.Obj? {
        var prev := GetNestedValue(Some(Obj(out)), key);
        var merge := if prev.Some? && prev.value.Obj? then Obj(prev.value.fields + value.fields) else value;
        out := SetNestedValue(out, key, merge);
      } else {
        out := SetNestedValue(out, key, value);
      }
    }
    assert patch[..|patch|] == patch;
    merged := out;
  }

  datatype PatchReply = Patched | Forbidden(key: string) | EntityNotFound

  /** The first key that fails a check. */
  method FirstFailing(check: string -> bool, keys: seq<string>) returns (bad: Option<string>)
    ensures bad.None? ==> forall key :: key in keys ==> check(key)
    ensures bad.Some? ==> bad.value in keys && !check(bad.value)
  {
    for i := 0 to |keys|
      invariant forall j :: 0 <= j < i ==> check(keys[j])
    {
      if !check(keys[i]) { return Some(keys[i]); }
    }
    return None;
  }

  /** The stored settings of an institution's entities. */
  class EntitySettings {
    var settings: map<string, Option<Json>>

    constructor (settings: map<string, Option<Json>>)
      ensures this.settings == settings
    {
      this.settings := settings;
    }

    /** Validates every flattened key, then merges; a refusal stores nothing. */
    method PatchEntitySettings(entityId: string, patch: Patch) returns (reply: PatchReply)
      modifies this
      ensures reply.Patched? <==> Accepted(patch) && entityId in old(settings)
      ensures reply.Forbidden? <==> !Accepted(patch)
      ensures reply.Forbidden? ==> reply.key in FlattenedKeys(patch) && !EntityMayOverride(reply.key)
      ensures settings ==
              if reply.Patched?
              then old(settings)[entityId := Some(Obj(MergeEntries(BaseFields(old(settings)[entityId]), patch)))]
              else old(settings)
    {
      var keys := FlattenPatchKeys(patch);
      assert forall key :: key in FlattenedKeys(patch) <==> key in keys;
      var bad := FirstFailing(EntityMayOverride, keys);
      if bad.Some? { return Forbidden(bad.value); }
      if entityId !in settings { return EntityNotFound; }
      var merged := MergeSettingsPatch(settings[entityId], patch);
      settings := settings[entityId := Some(Obj(merged))];
      return Patched;
    }
  }

  // ---- the cascade ---------------------------------------------------------------------

  datatype Source = FromEntity | FromInstitution | FromPlatform

  datatype Effective = Effective(value: Json, source: Source)

  function FirstAlias(entity: Option<Json>, aliases: seq<string>): Option<Json> {
    if aliases == [] then None
    else if GetNested(entity, aliases[0]).Some? then GetNested(entity, aliases[0])
    else FirstAlias(entity, aliases[1..])
  }

  function ReadEntitySetting(entity: Option<Json>, key: string): Option<Json> {
    if GetNested(entity, key).Some? then GetNested(entity, key)
    else if key in ALIASES then FirstAlias(entity, ALIASES[key])
    else None
  }

  function ResolveEffectiveSetting(key: string, institution: Option<Json>, entity: Option<Json>): Effective {
    var entityVal := if IsInstitutionOnlyKey(key) then None else ReadEntitySetting(entity, key);
    var instVal := GetNested(institution, key);
    if entityVal.Some? then Effective(entityVal.value, FromEntity)
    else if instVal.Some? then Effective(instVal.value, FromInstitution)
    else Effective(if key in PlatformDefaults() then PlatformDefaults()[key] else Null, FromPlatform)
  }

  // ---- what an accepted patch may change -------------------------------------------------

  /** Where a value found at a path holds empty objects, which validation does not see. */
  function EmptyPaths(path: seq<string>, value: Json): set<seq<string>>
    decreases value
  {
    if !value.Obj? then {}
    else if value.fields == map[] then {path}
    else set k, e | k in value.fields && e in EmptyPaths(path + [k], value.fields[k]) :: e
  }

  /** A path at, below or above some overridable key. */
  ghost predicate NearOverridable(q: seq<string>) {
    exists key :: key in OVERRIDABLE && Comparable(Split(key), q)
  }

  /** No empty top-level key, and no empty object away from the overridable keys. */
  ghost predicate ContainedEntry(key: string, value: Json) {
    key != "" && forall e :: e in EmptyPaths(Split(key), value) ==> NearOverridable(e)
  }

  ghost predicate Contained(patch: Patch) {
    forall i :: 0 <= i < |patch| ==> ContainedEntry(patch[i].0, patch[i].1)
  }

  lemma {:induction false} DotFree(key: string)
    requires forall i :: 0 <= i < |key| ==> key[i] != '.'
    ensures Split(key) == [key]
  {
    if key != [] {
      DotFree(key[1..]);
      assert [key[0]] + key[1..] == key;
    } else {
      assert key == "";
    }
  }

  predicate NoDots(part: string) { forall i :: 0 <= i < |part| ==> part[i] != '.' }

  /** A key whose only dot is at position i. */
  predicate DotAt(key: string, i: nat) {
    i < |key| && key[i] == '.' && forall j :: 0 <= j < |key| && j != i ==> key[j] != '.'
  }

  lemma TwoParts(key: string, i: nat)
    requires DotAt(key, i)
    ensures |Split(key)| == 2
  {
    DotFree(key[..i]);
    DotFree(key[i + 1..]);
    assert key == key[..i] + "." + key[i + 1..];
    SplitDot(key[..i], key[i + 1..]);
  }

  lemma BrandingDots(key: string)
    requires key in BRANDING_KEYS
    ensures DotAt(key, 8)
  {
  }

  lemma AcademicDots(key: string)
    requires key in ACADEMIC_KEYS || key in FINANCE_KEYS
    ensures DotAt(key, 7) || DotAt(key, 8)
  {
    if key == "grading.system" {
    } else if key == "finance.feeStructures" {
    } else if key == "academic.semesterLabels" {
    } else if key == "academic.calendarOffsetDays" {
    }
  }

  lemma PlainDots(key: string)
    requires key in PLAIN_KEYS
    ensures NoDots(key)
  {
  }

  /** No overridable key starts with a dot or has more than one. */
  lemma OverridableDots(key: string)
    requires key in OVERRIDABLE
    ensures NoDots(key) || DotAt(key, 7) || DotAt(key, 8)
    ensures key != "" && key[0] != '.'
  {
    if key in BRANDING_KEYS {
      BrandingDots(key);
    } else if key in PLAIN_KEYS {
      PlainDots(key);
    } else {
      AcademicDots(key);
    }
  }

  /** No overridable key is more than two segments deep. */
  lemma OverridableDepth(key: string)
    requires key in OVERRIDABLE
    ensures |Split(key)| <= 2
  {
    OverridableDots(key);
    if NoDots(key) {
      DotFree(key);
    } else {
      TwoParts(key, if DotAt(key, 7) then 7 else 8);
    }
  }

  lemma {:induction false} LeafBelow(path: string, value: Json, leaf: string)
    requires path != "" && leaf in LeafKeys(path, value)
    ensures Split(path) <= Split(leaf)
    decreases value
  {
    if value.Obj? {
      var k :| k in value.fields && leaf in LeafKeys(Extend(path, k), value.fields[k]);
      LeafBelow(Extend(path, k), value.fields[k], leaf);
      SplitDot(path, k);
    }
  }

  /** Every value holds a leaf or an empty object. */
  lemma {:induction false} LeafOrEmpty(path: string, at: seq<string>, value: Json) returns (leaf: Option<string>, e: seq<string>)
    ensures leaf.Some? ==> leaf.value in LeafKeys(path, value)
    ensures leaf.None? ==> e in EmptyPaths(at, value) && at <= e
    decreases value
  {
    e := at;
    if !value.Obj? {
      leaf := Some(path);
    } else if value.fields == map[] {
      leaf := None;
    } else {
      var k :| k in value.fields;
      leaf, e := LeafOrEmpty(Extend(path, k), at + [k], value.fields[k]);
    }
  }

  lemma {:induction false} GetPathConcat(cur: Option<Json>, a: seq<string>, b: seq<string>)
    requires b != []
    ensures GetPath(cur, a + b) == GetPath(GetPath(cur, a), b)
    decreases a
  {
    if a == [] {
      assert a + b == b;
    } else {
      assert (a + b)[1..] == a[1..] + b;
      if cur.Some? && cur.value.Obj? {
        GetPathConcat(Child(cur, a[0]), a[1..], b);
      } else {
        GetFromNothing(None, b);
      }
    }
  }

  /** Below a merged key only the segments the patch names can read differently. */
  lemma MergedBelow(out: Fields, key: string, value: Json, segment: string, rest: seq<string>)
    requires key != "" && value.Obj? && segment !in value.fields
    ensures var q := Split(key) + ([segment] + rest);
            GetPath(Some(Obj(MergeEntry(out, key, value))), q) == GetPath(Some(Obj(out)), q)
  {
    var p, merged, below := Split(key), MergedValue(out, key, value), [segment] + rest;
    SetNestedIsSetPath(out, key, merged);
    GetOfSet(out, p, merged);
    GetPathConcat(Some(Obj(MergeEntry(out, key, value))), p, below);
    GetPathConcat(Some(Obj(out)), p, below);
    var prev := GetPath(Some(Obj(out)), p);
    assert below[0] == segment && below[1..] == rest;
    if !(prev.Some? && prev.value.Obj?) {
      GetFromNothing(prev, below);
      if rest != [] { GetFromNothing(None, rest); }
    }
  }

  lemma RootNear(parts: seq<string>, key: string, q: seq<string>)
    requires parts == Split(key) && parts[0] in OVERRIDABLE && q != [] && Comparable(parts, q)
    ensures NearOverridable(q)
  {
    SplitParts(key);
    assert Split(parts[0]) == [parts[0]] <= q;
  }

  lemma LeafOverridable(key: string, value: Json, leaf: string)
    requires key != "" && leaf in LeafKeys(key, value) && EntityMayOverride(leaf) && Root(key) !in OVERRIDABLE
    ensures leaf in OVERRIDABLE && Split(key) <= Split(leaf) && |Split(leaf)| <= 2
  {
    LeafBelow(key, value, leaf);
    OverridableDepth(leaf);
  }

  lemma ComparableShorter(k: seq<string>, q: seq<string>, e: seq<string>)
    requires Comparable(k, e) && q <= e
    ensures Comparable(k, q)
  {
  }

  /** Nearness passes up to prefixes. */
  lemma NearAbove(q: seq<string>, e: seq<string>)
    requires NearOverridable(e) && q <= e
    ensures NearOverridable(q)
  {
    var key :| key in OVERRIDABLE && Comparable(Split(key), e);
    ComparableShorter(Split(key), q, e);
  }

  lemma PrefixOfLonger(k: seq<string>, mid: seq<string>, e: seq<string>, q: seq<string>)
    requires Comparable(k, e) && mid <= e && mid <= q && |k| <= |mid|
    ensures k <= q
  {
  }

  /** From two segments on, nearness passes down to everything. */
  lemma NearBelow(mid: seq<string>, e: seq<string>, q: seq<string>)
    requires NearOverridable(e) && mid <= e && mid <= q && |mid| >= 2
    ensures NearOverridable(q)
  {
    var key :| key in OVERRIDABLE && Comparable(Split(key), e);
    OverridableDepth(key);
    PrefixOfLonger(Split(key), mid, e, q);
  }

  lemma BelowNear(key: string, value: Json, segment: string, q: seq<string>)
    requires ContainedEntry(key, value) && value.Obj? && segment in value.fields
    requires forall leaf :: leaf in LeafKeys(key, value) ==> EntityMayOverride(leaf)
    requires Root(key) !in OVERRIDABLE && Split(key) + [segment] <= q
    ensures NearOverridable(q)
  {
    var mid := Split(key) + [segment];
    var leaf, e := LeafOrEmpty(Extend(key, segment), mid, value.fields[segment]);
    if leaf.Some? {
      LeafBelow(Extend(key, segment), value.fields[segment], leaf.value);
      SplitDot(key, segment);
      LeafOverridable(key, value, leaf.value);
      SplitParts(segment);
      assert Split(leaf.value) == mid;
    } else {
      assert e in EmptyPaths(Split(key), value);
      NearBelow(mid, e, q);
    }
  }

  lemma AboveNear(key: string, value: Json, q: seq<string>)
    requires ContainedEntry(key, value) && Root(key) !in OVERRIDABLE
    requires forall leaf :: leaf in LeafKeys(key, value) ==> EntityMayOverride(leaf)
    requires q <= Split(key) || (Comparable(Split(key), q) && !value.Obj?)
    ensures NearOverridable(q)
  {
    var leaf, e := LeafOrEmpty(key, Split(key), value);
    if leaf.Some? {
      LeafOverridable(key, value, leaf.value);
      assert Comparable(Split(leaf.value), q);
    } else {
      NearAbove(q, e);
    }
  }

  lemma EntryComparable(out: Fields, key: string, value: Json, q: seq<string>)
    requires GetPath(Some(Obj(MergeEntry(out, key, value))), q) != GetPath(Some(Obj(out)), q)
    ensures Comparable(Split(key), q)
  {
    SetNestedIsSetPath(out, key, MergedValue(out, key, value));
    if !Comparable(Split(key), q) { GetElsewhere(out, Split(key), MergedValue(out, key, value), q); }
  }

  lemma SplitAt(p: seq<string>, q: seq<string>)
    requires p <= q && |q| > |p|
    ensures q == p + ([q[|p|]] + q[|p| + 1..])
  {
  }

  lemma EntryNamed(out: Fields, key: string, value: Json, q: seq<string>)
    requires key != "" && value.Obj? && Split(key) <= q && |q| > |Split(key)|
    requires GetPath(Some(Obj(MergeEntry(out, key, value))), q) != GetPath(Some(Obj(out)), q)
    ensures q[|Split(key)|] in value.fields
    ensures q == Split(key) + ([q[|Split(key)|]] + q[|Split(key)| + 1..])
  {
    var n := |Split(key)|;
    SplitAt(Split(key), q);
    if q[n] !in value.fields { MergedBelow(out, key, value, q[n], q[n + 1..]); }
  }

  /** One validated and contained entry changes nothing away from the overridable keys. */
  lemma EntryFrame(out: Fields, key: string, value: Json, q: seq<string>)
    requires ContainedEntry(key, value) && q != []
    requires forall leaf :: leaf in LeafKeys(key, value) ==> EntityMayOverride(leaf)
    requires GetPath(Some(Obj(MergeEntry(out, key, value))), q) != GetPath(Some(Obj(out)), q)
    ensures NearOverridable(q)
  {
    var p := Split(key);
    EntryComparable(out, key, value, q);
    if p[0] in OVERRIDABLE {
      RootNear(p, key, q);
    } else if q <= p || !value.Obj? {
      AboveNear(key, value, q);
    } else {
      EntryNamed(out, key, value, q);
      BelowNear(key, value, q[|p|], q);
    }
  }

  ghost predicate Changed(base: Fields, patch: Patch, q: seq<string>) {
    GetPath(Some(Obj(MergeEntries(base, patch))), q) != GetPath(Some(Obj(base)), q)
  }

  /** An accepted, contained patch changes a stored value only at, below or above an
      overridable key. */
  lemma {:induction false} ContainedFrame(base: Fields, patch: Patch, q: seq<string>)
    requires Accepted(patch) && Contained(patch) && q != [] && Changed(base, patch, q)
    ensures NearOverridable(q)
  {
    if patch != [] {
      var front, last := patch[..|patch| - 1], patch[|patch| - 1];
      var mid := MergeEntries(base, front);
      if GetPath(Some(Obj(mid)), q) != GetPath(Some(Obj(base)), q) {
        ContainedFrame(base, front, q);
      } else {
        EntryFrame(mid, last.0, last.1, q);
      }
    }
  }

  // ---- a patch that is not contained reaches further --------------------------------------

  lemma {:induction false} EmptyFound(path: seq<string>, value: Json, e: seq<string>)
    requires e in EmptyPaths(path, value)
    ensures path <= e && GetPath(Some(value), e[|path|..]) == Some(Obj(map[]))
    decreases value
  {
    if value.fields != map[] {
      var k :| k in value.fields && e in EmptyPaths(path + [k], value.fields[k]);
      EmptyFound(path + [k], value.fields[k], e);
      assert e[|path|..][0] == k && e[|path|..][1..] == e[|path| + 1..];
    } else {
      assert e[|path|..] == [];
    }
  }

  /** The merged value holds whatever the patch's value holds below it. */
  lemma MergedHolds(out: Fields, key: string, value: Json, rest: seq<string>)
    requires GetPath(Some(value), rest).Some?
    ensures GetPath(Some(MergedValue(out, key, value)), rest).Some?
  {
    if rest != [] { assert rest[0] in value.fields; }
  }

  lemma {:induction false} GetWithin(cur: Option<Json>, p: seq<string>, rest: seq<string>)
    ensures GetPath(cur, p + rest) == GetPath(GetPath(cur, p), rest)
  {
    if rest == [] { assert p + rest == p; } else { GetPathConcat(cur, p, rest); }
  }

  /** Where an entry that is not contained writes. */
  ghost predicate Stray(key: string, value: Json, e: seq<string>) {
    !NearOverridable(e) && (if key == "" then e == [""] else e in EmptyPaths(Split(key), value))
  }

  lemma StrayWritten(out: Fields, key: string, value: Json, e: seq<string>)
    requires Stray(key, value, e)
    ensures e != [] && GetPath(Some(Obj(MergeEntry(out, key, value))), e).Some?
  {
    if key == "" {
      MergedAt(out, key, value);
      assert Split(key) == [""];
    } else {
      EmptyWritten(out, key, value, e);
    }
  }

  lemma EmptyWritten(out: Fields, key: string, value: Json, e: seq<string>)
    requires e in EmptyPaths(Split(key), value)
    ensures e != [] && GetPath(Some(Obj(MergeEntry(out, key, value))), e).Some?
  {
    EmptyFound(Split(key), value, e);
    assert e == Split(key) + e[|Split(key)|..];
    WrittenBelow(out, key, value, e[|Split(key)|..]);
  }

  lemma MergedAt(out: Fields, key: string, value: Json)
    ensures GetPath(Some(Obj(MergeEntry(out, key, value))), Split(key)) == Some(MergedValue(out, key, value))
  {
    SetNestedIsSetPath(out, key, MergedValue(out, key, value));
    GetOfSet(out, Split(key), MergedValue(out, key, value));
  }

  lemma WrittenBelow(out: Fields, key: string, value: Json, rest: seq<string>)
    requires GetPath(Some(value), rest).Some?
    ensures GetPath(Some(Obj(MergeEntry(out, key, value))), Split(key) + rest).Some?
  {
    MergedAt(out, key, value);
    MergedHolds(out, key, value, rest);
    GetWithin(Some(Obj(MergeEntry(out, key, value))), Split(key), rest);
  }

  lemma StrayExists(key: string, value: Json) returns (e: seq<string>)
    requires !ContainedEntry(key, value)
    ensures Stray(key, value, e)
  {
    if key == "" {
      NothingNearEmptyKey();
      e := [""];
    } else {
      e :| e in EmptyPaths(Split(key), value) && !NearOverridable(e);
    }
  }

  /** What the last stray entry writes survives the entries after it. */
  lemma {:induction false} StraySurvives(patch: Patch) returns (e: seq<string>)
    requires Accepted(patch) && !Contained(patch)
    ensures e != [] && !NearOverridable(e) && GetPath(Some(Obj(MergeEntries(map[], patch))), e).Some?
  {
    var front, last := patch[..|patch| - 1], patch[|patch| - 1];
    var mid := MergeEntries(map[], front);
    if ContainedEntry(last.0, last.1) {
      assert !Contained(front) by {
        var i :| 0 <= i < |patch| && !ContainedEntry(patch[i].0, patch[i].1);
        assert front[i] == patch[i];
      }
      e := StraySurvives(front);
      if GetPath(Some(Obj(MergeEntry(mid, last.0, last.1))), e) != GetPath(Some(Obj(mid)), e) {
        EntryFrame(mid, last.0, last.1, e);
        assert false;
      }
    } else {
      e := StrayExists(last.0, last.1);
      StrayWritten(mid, last.0, last.1, e);
    }
  }

  /** An accepted patch stays at, below or above overridable keys whatever was stored before,
      exactly when it has no empty top-level key and no empty object elsewhere. */
  lemma PatchFrame(patch: Patch)
    requires Accepted(patch)
    ensures (forall base: Fields, q :: q != [] && Changed(base, patch, q) ==> NearOverridable(q)) <==> Contained(patch)
  {
    if Contained(patch) {
      forall base: Fields, q | q != [] && Changed(base, patch, q) ensures NearOverridable(q) {
        ContainedFrame(base, patch, q);
      }
    } else {
      var e := StraySurvives(patch);
      GetFromNothing(Some(Obj(map[])), e);
      assert Changed(map[], patch, e);
    }
  }

  /** An empty object slips through validation, having no leaf, and is stored where only the
      institution may write. */
  lemma EmptyObjectEscapes()
    ensures var patch: Patch := [("auth", Obj(map[]))];
            && Accepted(patch) && IsInstitutionOnlyKey("auth")
            && GetNested(Some(Obj(map[])), "auth") == None
            && GetNested(Some(Obj(MergeEntries(map[], patch))), "auth") == Some(Obj(map[]))
  {
    var patch: Patch := [("auth", Obj(map[]))];
    assert patch[..0] == [];
    GetFromNothing(Some(Obj(map[])), Split("auth"));
    NestedGetOfSet(map[], "auth", Obj(map[]));
  }

  lemma FirstPart(key: string)
    requires key != "" && key[0] != '.'
    ensures Split(key)[0] != ""
  {
    assert |Split(key)[0]| >= 1;
  }

  lemma NotNearEmptyKey(key: string)
    requires key in OVERRIDABLE
    ensures !Comparable(Split(key), [""])
  {
    OverridableDots(key);
    FirstPart(key);
  }

  lemma NothingNearEmptyKey()
    ensures !NearOverridable([""])
  {
    if key :| key in OVERRIDABLE && Comparable(Split(key), [""]) { NotNearEmptyKey(key); }
  }

  lemma EmptyKeyLeaves(value: Json)
    requires !value.Obj?
    ensures LeafKeys("", Obj(map["modules" := value])) == {"modules"}
  {
    var inner := map["modules" := value];
    assert inner.Keys == {"modules"};
    assert LeafKeys(Extend("", "modules"), value) == {"modules"};
  }

  lemma ModulesMayBeSet()
    ensures EntityMayOverride("modules")
  {
    DotFree("modules");
  }

  lemma EmptyKeyAccepted(value: Json)
    requires !value.Obj?
    ensures Accepted([("", Obj(map["modules" := value]))])
  {
    var patch: Patch := [("", Obj(map["modules" := value]))];
    assert patch[..0] == [];
    EmptyKeyLeaves(value);
    ModulesMayBeSet();
    assert FlattenedKeys(patch) == {"modules"};
  }

  /** Under an empty key the validated path is not the path that is written. */
  lemma EmptyKeyEscapes(value: Json)
    requires !value.Obj?
    ensures var patch: Patch := [("", Obj(map["modules" := value]))];
            && Accepted(patch)
            && GetPath(Some(Obj(MergeEntries(map[], patch))), [""]) == Some(Obj(map["modules" := value]))
            && GetPath(Some(Obj(map[])), [""]) == None
            && !NearOverridable([""])
  {
    EmptyKeyAccepted(value);
    NothingNearEmptyKey();
    EmptyKeyWritten(Obj(map["modules" := value]));
  }

  lemma EmptyKeyWritten(inner: Json)
    ensures GetPath(Some(Obj(MergeEntries(map[], [("", inner)]))), [""]) == Some(inner)
    ensures GetPath(Some(Obj(map[])), [""]) == None
  {
    var patch: Patch := [("", inner)];
    assert patch[..0] == [];
    SetNestedIsSetPath(map[], "", inner);
    GetOfSet(map[], [""], inner);
    GetFromNothing(Some(Obj(map[])), [""]);
  }

  // ---- effective values ------------------------------------------------------------------

  /** A value an entity may set takes effect, whatever was stored anywhere before. */
  lemma EntityValueTakesEffect(key: string, value: Json, institution: Option<Json>, entity: Option<Json>)
    requires key != "" && EntityMayOverride(key) && !value.Obj?
    ensures Accepted([(key, value)])
    ensures ResolveEffectiveSetting(key, institution, Some(Obj(MergeEntries(BaseFields(entity), [(key, value)]))))
            == Effective(value, FromEntity)
  {
    var patch: Patch := [(key, value)];
    assert patch[..0] == [];
    assert FlattenedKeys(patch) == {key};
    NestedGetOfSet(BaseFields(entity), key, value);
  }

  lemma AliasesNear(key: string)
    requires key in ALIASES
    ensures key in OVERRIDABLE
  {
  }

  /** No patch reaches the effective value of an institution-only key, and no accepted,
      contained patch reaches one away from the overridable keys. */
  lemma EffectiveFrame(key: string, institution: Option<Json>, base: Fields, patch: Patch)
    requires IsInstitutionOnlyKey(key)
             || (key != "" && Accepted(patch) && Contained(patch) && !NearOverridable(Split(key)))
    ensures ResolveEffectiveSetting(key, institution, Some(Obj(MergeEntries(base, patch))))
            == ResolveEffectiveSetting(key, institution, Some(Obj(base)))
  {
    if !IsInstitutionOnlyKey(key) {
      NotAlias(key);
      if Changed(base, patch, Split(key)) { ContainedFrame(base, patch, Split(key)); }
      SameReading(key, institution, MergeEntries(base, patch), base);
    }
  }

  lemma NotAlias(key: string)
    requires !NearOverridable(Split(key))
    ensures key !in ALIASES
  {
    if key in ALIASES {
      AliasesNear(key);
      assert Comparable(Split(key), Split(key));
      assert false;
    }
  }

  lemma SameReading(key: string, institution: Option<Json>, a: Fields, b: Fields)
    requires key !in ALIASES && GetNested(Some(Obj(a)), key) == GetNested(Some(Obj(b)), key)
    ensures ResolveEffectiveSetting(key, institution, Some(Obj(a))) == ResolveEffectiveSetting(key, institution, Some(Obj(b)))
  {
  }
}
