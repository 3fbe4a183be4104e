/** Validation of target metadata (internal/provider/provider.go). */
module TargetValidation {
  import opened Text
  import opened Provider
  import opened Options
  import opened Cmdline
  import opened SecretRefs

  predicate ValidEnumValue(v: OptionValue) {
    !Blank(v.value) && TrimSpace(v.value) == v.value && SpaceFree(v.value) && !HasControl(v.value)
    && TrimSpace(v.display) == v.display && ValidFragment(v.fragment, false)
  }

  predicate ValidEnumValues(values: seq<OptionValue>) {
    && values != []
    && (forall i :: 0 <= i < |values| ==> ValidEnumValue(values[i]))
    && (forall i, j :: 0 <= i < j < |values| ==> values[i].value != values[j].value)
  }

  /** `validateTargetOptionBehavior`. */
  predicate ValidBehavior(o: TargetOption) {
    match o.kind
    case BoolKind => o.values == [] && o.template == "" && ValidFragment(o.fragment, true)
    case EnumKind => o.fragment == "" && o.template == "" && ValidEnumValues(o.values)
    case StringKind => o.fragment == "" && o.values == [] && ValidTemplate(o.template)
    case OtherKind(_) => false
  }

  predicate ValidOption(o: TargetOption) {
    !Blank(o.id) && ValidOptionId(o.id) && !Blank(o.display) && !o.secret && ValidBehavior(o)
  }

  predicate ValidOptions(options: seq<TargetOption>) {
    && (forall i, j :: 0 <= i < j < |options| ==> options[i].id != options[j].id)
    && (forall i :: 0 <= i < |options| ==> ValidOption(options[i]))
  }

  predicate ValidSecret(s: SecretInput) {
    !Blank(s.id) && ValidOptionId(s.id) && !Blank(s.display) && !Blank(s.purpose) && s.delivery == "staged-file"
  }

  predicate ValidSecrets(secrets: seq<SecretInput>) {
    && (forall i, j :: 0 <= i < j < |secrets| ==> secrets[i].id != secrets[j].id)
    && (forall i :: 0 <= i < |secrets| ==> ValidSecret(secrets[i]))
  }

  /** The loop both validators share: a set of seen ids, and a check on each item. */
  method DistinctAndValid<T>(items: seq<T>, id: T -> string, ok: T -> bool) returns (r: bool)
    ensures r <==>
      && (forall i, j :: 0 <= i < j < |items| ==> id(items[i]) != id(items[j]))
      && (forall i :: 0 <= i < |items| ==> ok(items[i]))
  {
    var seen: set<string> := {};
    for i := 0 to |items|
      invariant forall k :: 0 <= k < i ==> id(items[k]) in seen
      invariant forall x :: x in seen ==> exists k :: 0 <= k < i && id(items[k]) == x
      invariant forall j, k :: 0 <= j < k < i ==> id(items[j]) != id(items[k])
      invariant forall j :: 0 <= j < i ==> ok(items[j])
    {
      if id(items[i]) in seen || !ok(items[i]) {
        return false;
      }
      seen := seen + {id(items[i])};
    }
    return true;
  }

  /** `validateTargetOptions`. */
  method ValidateTargetOptions(options: seq<TargetOption>) returns (ok: bool)
    ensures ok == ValidOptions(options)
  {
    ok := DistinctAndValid(options, (o: TargetOption) => o.id, (o: TargetOption) => ValidOption(o));
  }

  /** `validateSecretInputs`. */
  method ValidateSecretInputs(secrets: seq<SecretInput>) returns (ok: bool)
    ensures ok == ValidSecrets(secrets)
  {
    ok := DistinctAndValid(secrets, (s: SecretInput) => s.id, (s: SecretInput) => ValidSecret(s));
  }

  predicate ValidCatalogEntry(c: CatalogEntry) {
    !Blank(c.distribution) && !Blank(c.release) && !Blank(c.architecture) && !Blank(c.kind)
  }

  /**
    `ValidateTarget` for the provider that exposes the target.  `sourceOk` stands
    for the source and lifecycle checks, which depend on `url.Parse` and
    `time.Parse`.
   */
  predicate ValidTarget(sourceOk: Target -> bool, providerId: string, t: Target) {
    && !Blank(t.id) && !Blank(t.providerId) && t.providerId == providerId && !Blank(t.name)
    && !t.action.OtherAction? && ValidCatalogEntry(t.catalog) && sourceOk(t)
    && ValidOptions(t.options) && ValidSecrets(t.secrets)
  }

  /** The validator as a value, for catalogs and registries to be checked with. */
  function Validator(sourceOk: Target -> bool): (string, Target) -> bool {
    (id, t) => ValidTarget(sourceOk, id, t)
  }

  /** A validated target declares every secret once, so resolving is idempotent for it. */
  lemma ValidSecretsDeclaredOnce(secrets: seq<SecretInput>, ids: set<string>)
    requires ValidSecrets(secrets)
    ensures DeclaredOnce(secrets, ids)
  {
  }

  // ---------------------------------------------------------------- what validation demands

  /** A letter a to z, then letters, digits, `-`, `_` and `.`. */
  predicate SoundId(id: string) {
    && id != "" && 'a' <= id[0] <= 'z'
    && forall i :: 0 < i < |id| ==> 'a' <= id[i] <= 'z' || '0' <= id[i] <= '9' || id[i] in {'-', '_', '.'}
  }

  predicate SoundFragment(f: string) {
    Tight(f) && NoControls(f) && !Occurs("{value}", f)
  }

  predicate SoundEnumValue(v: OptionValue) {
    PlainWord(v.value) && (v.display == "" || Tight(v.display)) && (v.fragment == "" || SoundFragment(v.fragment))
  }

  /** What a declared option must look like, by its kind. */
  ghost predicate SoundBehavior(o: TargetOption) {
    match o.kind
    case BoolKind => o.values == [] && o.template == "" && SoundFragment(o.fragment)
    case EnumKind =>
      && o.fragment == "" && o.template == "" && o.values != []
      && (forall i, j :: 0 <= i < j < |o.values| ==> o.values[i].value != o.values[j].value)
      && (forall i :: 0 <= i < |o.values| ==> SoundEnumValue(o.values[i]))
    case StringKind =>
      && o.fragment == "" && o.values == []
      && Tight(o.template) && NoControls(o.template) && exists k: nat :: OneHole(o.template, k)
    case OtherKind(_) => false
  }

  lemma SoundIdIff(id: string)
    ensures !Blank(id) && ValidOptionId(id) <==> SoundId(id)
  {
    BlankTextIff(id);
    if ValidOptionId(id) {
      assert forall i :: 0 <= i < |id| ==> IdChar(id[i], i == 0);
      if id != "" { assert IdChar(id[0], true) && !IsSpace(id[0]); }
    }
  }

  lemma SoundEnumValueIff(v: OptionValue)
    ensures ValidEnumValue(v) <==> SoundEnumValue(v)
  {
    ValidValueIff(v.value);
    BlankTextIff(v.display);
    ValidFragmentIff(v.fragment, false);
  }

  lemma SoundBehaviorIff(o: TargetOption)
    ensures ValidBehavior(o) <==> SoundBehavior(o)
  {
    ValidFragmentIff(o.fragment, true);
    ValidTemplateIff(o.template);
    forall i | 0 <= i < |o.values| ensures ValidEnumValue(o.values[i]) <==> SoundEnumValue(o.values[i]) {
      SoundEnumValueIff(o.values[i]);
    }
  }

  /** Exactly which options are declared properly, character by character. */
  lemma {:induction false} ValidOptionIff(o: TargetOption)
    ensures ValidOption(o) <==> SoundId(o.id) && !AllSpace(o.display) && !o.secret && SoundBehavior(o)
  {
    SoundIdIff(o.id);
    BlankTextIff(o.display);
    SoundBehaviorIff(o);
  }

  /** Exactly which secrets are. */
  lemma {:induction false} ValidSecretIff(s: SecretInput)
    ensures ValidSecret(s) <==>
      SoundId(s.id) && !AllSpace(s.display) && !AllSpace(s.purpose) && s.delivery == "staged-file"
  {
    SoundIdIff(s.id);
    BlankTextIff(s.display);
    BlankTextIff(s.purpose);
  }

  /** And which targets, for the provider that shows them. */
  lemma {:induction false} ValidTargetIff(sourceOk: Target -> bool, providerId: string, t: Target)
    ensures Validator(sourceOk)(providerId, t) <==>
      && !AllSpace(t.id) && !AllSpace(t.providerId) && t.providerId == providerId && !AllSpace(t.name)
      && (t.action.Unset? || t.action.LinuxKexec? || t.action.LocalBoot? || t.action.FreeBSDKboot?)
      && !AllSpace(t.catalog.distribution) && !AllSpace(t.catalog.release)
      && !AllSpace(t.catalog.architecture) && !AllSpace(t.catalog.kind) && sourceOk(t)
      && ValidOptions(t.options) && ValidSecrets(t.secrets)
  {
    BlankTextIff(t.id);
    BlankTextIff(t.providerId);
    BlankTextIff(t.name);
    BlankTextIff(t.catalog.distribution);
    BlankTextIff(t.catalog.release);
    BlankTextIff(t.catalog.architecture);
    BlankTextIff(t.catalog.kind);
  }
}
