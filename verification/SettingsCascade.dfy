/** Which tier a setting comes from, and what a merged patch reads as afterwards, said of what the
    stored trees hold at dotted keys. */
module SettingsCascade {
  import opened Results
  import opened SettingsTree
  import opened Customization

  // ---- keys and their first segments ---------------------------------------------------

  /** The key itself, or a key below it. */
  predicate AtOrBelow(key: string, name: string) { key == name || name + "." <= key }

  /** A name without dots is the first segment of exactly the keys at or below it. */
  lemma RootExact(key: string, name: string)
    ensures Root(key) == name <==> NoDots(name) && AtOrBelow(key, name)
  {
    SplitParts(key);
    NoDotsInPart(key);
    if Root(key) == name {
      JoinSplit(key);
      if |Split(key)| > 1 { assert key == name + "." + Join(Split(key)[1..]); }
    }
    if NoDots(name) && AtOrBelow(key, name) {
      DotFree(name);
      if key != name {
        var rest := key[|name| + 1..];
        assert key == name + "." + rest;
        SplitDot(name, rest);
      }
    }
  }

  lemma {:induction false} NoDotsInPart(key: string)
    ensures NoDots(Split(key)[0])
  {
    if key != [] && key[0] != '.' { NoDotsInPart(key[1..]); }
  }

  /** One of the names, or a key below one of those without dots. */
  ghost predicate Listed(key: string, names: set<string>) {
    key in names || exists name :: name in names && NoDots(name) && AtOrBelow(key, name)
  }

  lemma ListedExact(key: string, names: set<string>)
    ensures key in names || Root(key) in names <==> Listed(key, names)
  {
    RootExact(key, Root(key));
    if name :| name in names && NoDots(name) && AtOrBelow(key, name) { RootExact(key, name); }
  }

  /** Kept for the institution. */
  ghost predicate Reserved(key: string) {
    Listed(key, {"auth", "auth.sso", "auth.mfa", "oauthGoogle", "mfa", "sso", "dataRetention", "audit", "auditLog",
                 "billing", "subscription", "payment.credentials"})
  }

  /** What an entity may set: branding, academic and finance keys, and whatever lies at or below
      a plain one, unless it is kept for the institution. */
  lemma EntityMayExact(key: string)
    ensures IsInstitutionOnlyKey(key) <==> Reserved(key)
    ensures EntityMayOverride(key) <==>
            !Reserved(key)
            && Listed(key, {"branding.primaryColor", "branding.logoUrl", "branding.customDomain", "logoUrl", "primaryColor",
                            "customDomain", "studentNumberFormat", "grading.system", "academic.semesterLabels",
                            "academic.calendarOffsetDays", "academic.calendar", "paymentGateway", "finance.feeStructures",
                            "modules"})
  {
    ListedExact(key, INSTITUTION_ONLY);
    ListedExact(key, OVERRIDABLE);
    assert OVERRIDABLE ==
           {"branding.primaryColor", "branding.logoUrl", "branding.customDomain", "logoUrl", "primaryColor", "customDomain",
            "studentNumberFormat", "grading.system", "academic.semesterLabels", "academic.calendarOffsetDays",
            "academic.calendar", "paymentGateway", "finance.feeStructures", "modules"};
  }

  // ---- the three tiers -----------------------------------------------------------------

  /** Where entities kept the setting before keys were dotted. */
  function OldKey(key: string): string {
    if key == "branding.logoUrl" then "logoUrl"
    else if key == "branding.primaryColor" then "primaryColor"
    else if key == "branding.customDomain" then "customDomain"
    else key
  }

  /** The entity's own value, at the key or else at the old one. */
  function OwnValue(entity: Option<Json>, key: string): Option<Json> {
    if GetNested(entity, key).Some? then GetNested(entity, key) else GetNested(entity, OldKey(key))
  }

  lemma OwnValueExact(entity: Option<Json>, key: string)
    ensures ReadEntitySetting(entity, key) == OwnValue(entity, key)
  {
    if key in ALIASES {
      assert ALIASES[key] == [OldKey(key)];
      assert [OldKey(key)][1..] == [];
      assert FirstAlias(entity, [OldKey(key)][1..]) == None;
    }
  }

  /** The entity's value counts first, unless the key is kept for the institution; then the
      institution's, then the platform's default, and null if there is none. */
  lemma CascadeExact(key: string, institution: Option<Json>, entity: Option<Json>)
    ensures var r := ResolveEffectiveSetting(key, institution, entity);
            && (r.source == FromEntity <==> !Reserved(key) && OwnValue(entity, key).Some?)
            && (r.source == FromEntity ==> Some(r.value) == OwnValue(entity, key))
            && (r.source == FromInstitution <==>
                  GetNested(institution, key).Some? && (Reserved(key) || OwnValue(entity, key).None?))
            && (r.source == FromInstitution ==> Some(r.value) == GetNested(institution, key))
            && (r.source == FromPlatform <==>
                  GetNested(institution, key).None? && (Reserved(key) || OwnValue(entity, key).None?))
            && (r.source == FromPlatform && key in PlatformDefaults() ==> r.value == PlatformDefaults()[key])
            && (r.source == FromPlatform && key !in PlatformDefaults() ==> r.value == Null)
  {
    EntityMayExact(key);
    OwnValueExact(entity, key);
  }

  /** A logo kept under the old key is still the logo, and whatever the institution has it is not
      asked while the entity has one. */
  lemma OldLogoCounts(institution: Option<Json>, entity: Option<Json>, logo: Json)
    requires GetNested(entity, "branding.logoUrl").None? && GetNested(entity, "logoUrl") == Some(logo)
    ensures ResolveEffectiveSetting("branding.logoUrl", institution, entity) == Effective(logo, FromEntity)
  {
    CascadeExact("branding.logoUrl", institution, entity);
    BrandingOpen("branding.logoUrl");
  }

  lemma NotBranding(name: string)
    requires name in INSTITUTION_ONLY
    ensures |name| >= 2 && !(name[0] == 'b' && name[1] == 'r')
  {
  }

  /** Nothing that starts like branding is kept for the institution. */
  lemma BrandingOpen(key: string)
    requires |key| >= 2 && key[0] == 'b' && key[1] == 'r'
    ensures !Reserved(key)
  {
    forall name | name in INSTITUTION_ONLY ensures !AtOrBelow(key, name) {
      NotBranding(name);
      StartsAlike(key, name);
    }
  }

  lemma StartsAlike(key: string, name: string)
    requires |name| >= 2
    ensures AtOrBelow(key, name) ==> |key| >= 2 && key[0] == name[0] && key[1] == name[1]
  {
    assert (name + ".")[0] == name[0] && (name + ".")[1] == name[1];
  }

  // ---- what a merged entry reads as ------------------------------------------------------

  /** Merging an object goes one level deep: its fields replace what was there, field by field,
      the other fields stay. */
  lemma MergedReads(out: Fields, key: string, value: Json, segment: string, rest: seq<string>)
    requires key != "" && value.Obj?
    ensures var q := Split(key) + ([segment] + rest);
            GetPath(Some(Obj(MergeEntry(out, key, value))), q)
            == if segment in value.fields then GetPath(Some(value.fields[segment]), rest) else GetPath(Some(Obj(out)), q)
  {
    if segment in value.fields {
      var below := [segment] + rest;
      MergedAt(out, key, value);
      GetPathConcat(Some(Obj(MergeEntry(out, key, value))), Split(key), below);
      assert below[0] == segment && below[1..] == rest;
    } else {
      MergedBelow(out, key, value, segment, rest);
    }
  }

  /** Anything else replaces what was at the key. */
  lemma ReplacedReads(out: Fields, key: string, value: Json)
    requires key != "" && !value.Obj?
    ensures GetNested(Some(Obj(MergeEntry(out, key, value))), key) == Some(value)
  {
    MergedAt(out, key, value);
  }

  /** Whatever was stored reads as before at every path that neither leads to a key of the patch
      nor lies below one. */
  lemma {:induction false} PatchKeepsRest(existing: Option<Json>, patch: Patch, q: seq<string>)
    requires q != [] && forall i :: 0 <= i < |patch| ==> !Comparable(Split(patch[i].0), q)
    ensures GetPath(Some(Obj(MergeEntries(BaseFields(existing), patch))), q) == GetPath(existing, q)
  {
    if patch == [] {
      StoredReads(existing, q);
    } else {
      var front, last := patch[..|patch| - 1], patch[|patch| - 1];
      PatchKeepsRest(existing, front, q);
      var mid := MergeEntries(BaseFields(existing), front);
      SetNestedIsSetPath(mid, last.0, MergedValue(mid, last.0, last.1));
      GetElsewhere(mid, Split(last.0), MergedValue(mid, last.0, last.1), q);
    }
  }

  lemma StoredReads(existing: Option<Json>, q: seq<string>)
    requires q != []
    ensures GetPath(Some(Obj(BaseFields(existing))), q) == GetPath(existing, q)
  {
    if !(existing.Some? && existing.value.Obj?) {
      GetFromNothing(existing, q);
      GetFromNothing(Some(Obj(map[])), q);
    }
  }
}
