/**
  Compilation of selected target options into command-line fragments
  (internal/provider/provider.go, internal/app/app.go).
 */
module Options {
  import opened Common
  import opened Text
  import opened Provider

  const VALUE: string := "{value}"

  // ---------------------------------------------------------------- catalog-side validation

  predicate HasControl(s: string) {
    exists i :: 0 <= i < |s| && IsControl(s[i])
  }

  /** `validateCmdlineFragment`. */
  predicate ValidFragment(fragment: string, required: bool) {
    if fragment == "" then !required
    else TrimSpace(fragment) == fragment && !Occurs(VALUE, fragment) && !HasControl(fragment)
  }

  /** `strings.Count`: non-overlapping occurrences from the left. */
  function Count(s: string, v: string): nat
    requires v != ""
    decreases |s|
  {
    if |s| < |v| then 0
    else if v <= s then 1 + Count(s[|v|..], v)
    else Count(s[1..], v)
  }

  /** `validateCmdlineTemplate`. */
  predicate ValidTemplate(template: string) {
    !Blank(template) && TrimSpace(template) == template && Count(template, VALUE) == 1 && !HasControl(template)
  }

  /** The checks on a selected string value. */
  predicate ValidValue(value: string) {
    !Blank(value) && TrimSpace(value) == value && SpaceFree(value) && !HasControl(value)
  }

  // ---------------------------------------------------------------- one option

  function EnumFragment(values: seq<OptionValue>, value: string): Result<string> {
    if values == [] then Err
    else if values[0].value == value then Ok(values[0].fragment)
    else EnumFragment(values[1..], value)
  }

  function Expand(template: string, value: string): string {
    ReplaceAll(template, VALUE, value)
  }

  /** `selectedOptionFragment`. */
  function OptionFragment(option: TargetOption, value: string): Result<string> {
    match option.kind
    case BoolKind =>
      if value == "true" then Ok(option.fragment) else if value == "false" then Ok("") else Err
    case EnumKind => EnumFragment(option.values, value)
    case StringKind =>
      if !ValidValue(value) then Err
      else if ValidFragment(Expand(option.template, value), true) then Ok(Expand(option.template, value))
      else Err
    case OtherKind(_) => Err
  }

  /** The search loop of the enum case. */
  method FindEnumValue(values: seq<OptionValue>, value: string) returns (r: Result<string>)
    ensures r == EnumFragment(values, value)
    ensures r.Ok? <==> exists i :: 0 <= i < |values| && values[i].value == value
  {
    for i := 0 to |values|
      invariant EnumFragment(values, value) == EnumFragment(values[i..], value)
      invariant forall j :: 0 <= j < i ==> values[j].value != value
    {
      if values[i].value == value {
        return Ok(values[i].fragment);
      }
    }
    return Err;
  }

  /** With distinct values, selecting a declared value gives that value's own fragment. */
  lemma {:induction false} EnumSelects(values: seq<OptionValue>, k: nat)
    requires k < |values| && forall i, j :: 0 <= i < j < |values| ==> values[i].value != values[j].value
    ensures EnumFragment(values, values[k].value) == Ok(values[k].fragment)
  {
    if k > 0 {
      assert values[0].value != values[k].value;
      assert forall i :: 0 <= i < |values[1..]| ==> values[1..][i] == values[i + 1];
      EnumSelects(values[1..], k - 1);
    }
  }

  method SelectedOptionFragment(option: TargetOption, value: string) returns (r: Result<string>)
    ensures r == OptionFragment(option, value)
  {
    if option.kind.EnumKind? {
      r := FindEnumValue(option.values, value);
    } else {
      r := OptionFragment(option, value);
    }
  }

  // ---------------------------------------------------------------- all options

  type Chosen = map<string, string>

  function Ids(selected: seq<SelectedOption>): (ids: seq<string>)
    ensures |ids| == |selected|
  {
    seq(|selected|, i requires 0 <= i < |selected| => selected[i].id)
  }

  predicate WellSelected(selected: seq<SelectedOption>) {
    NoDup(Ids(selected)) && forall i :: 0 <= i < |selected| ==> !Blank(selected[i].id)
  }

  function ChosenMap(selected: seq<SelectedOption>): Chosen {
    if selected == [] then map[]
    else ChosenMap(selected[..|selected| - 1])[selected[|selected| - 1].id := selected[|selected| - 1].value]
  }

  function Kept(fragment: string): seq<string> {
    if fragment == "" then [] else [fragment]
  }

  /** The walk over the catalog's options, deleting each selection when it is used. */
  function Walk(options: seq<TargetOption>, chosen: Chosen): Result<seq<string>> {
    if options == [] then (if chosen == map[] then Ok([]) else Err)
    else
      var option := options[0];
      if option.id !in chosen then Walk(options[1..], chosen)
      else
        var fragment := OptionFragment(option, chosen[option.id]);
        if fragment.Err? then Err
        else Prepend(Kept(fragment.value), Walk(options[1..], chosen - {option.id}))
  }

  function Compile(options: seq<TargetOption>, selected: seq<SelectedOption>): Result<seq<string>> {
    if WellSelected(selected) then Walk(options, ChosenMap(selected)) else Err
  }

  /** `selectedOptionFragments`, with its map of pending selections. */
  method SelectedOptionFragments(options: seq<TargetOption>, selected: seq<SelectedOption>)
    returns (r: Result<seq<string>>)
    ensures r == Compile(options, selected)
  {
    if |selected| == 0 {
      WalkNothing(options);
      return Ok([]);
    }
    var chosen := ChooseById(selected);
    if chosen.Err? {
      return Err;
    }
    r := WalkOptions(options, chosen.value);
  }

  /** The loop that fills the map of selections. */
  method ChooseById(selected: seq<SelectedOption>) returns (r: Result<Chosen>)
    ensures r == if WellSelected(selected) then Ok(ChosenMap(selected)) else Err
  {
    var selectedById: Chosen := map[];
    for i := 0 to |selected|
      invariant WellSelected(selected[..i]) && selectedById == ChosenMap(selected[..i])
    {
      ChooseNext(selected, i);
      if Blank(selected[i].id) || selected[i].id in selectedById {
        return Err;
      }
      selectedById := selectedById[selected[i].id := selected[i].value];
    }
    assert selected[..|selected|] == selected;
    return Ok(selectedById);
  }

  /** One turn of that loop. */
  lemma ChooseNext(selected: seq<SelectedOption>, i: nat)
    requires i < |selected| && WellSelected(selected[..i])
    ensures
      var front, next, o := selected[..i], selected[..i + 1], selected[i];
      && ChosenMap(next) == ChosenMap(front)[o.id := o.value]
      && (if Blank(o.id) || o.id in ChosenMap(front) then !WellSelected(selected) else WellSelected(next))
  {
    var front, next, o := selected[..i], selected[..i + 1], selected[i];
    assert next[..i] == front && next[i] == o;
    ChosenKeys(front);
    if o.id in ChosenMap(front) { RepeatedId(selected, i); }
    assert Ids(next) == Ids(front) + [o.id];
    NoDupSnoc(Ids(front), o.id);
    assert forall j :: 0 <= j < i ==> next[j] == front[j];
  }

  /** The loop over the declarations; every selection it uses is deleted from the map. */
  method WalkOptions(options: seq<TargetOption>, chosen: Chosen) returns (r: Result<seq<string>>)
    ensures r == Walk(options, chosen)
  {
    var selectedById, fragments: seq<string> := chosen, [];
    PrependTwice([], [], Walk(options, chosen));
    assert options[0..] == options;
    for i := 0 to |options|
      invariant Walk(options, chosen) == Prepend(fragments, Walk(options[i..], selectedById))
    {
      assert options[i..][0] == options[i] && options[i..][1..] == options[i + 1..];
      if options[i].id !in selectedById {
        continue;
      }
      var value := selectedById[options[i].id];
      selectedById := selectedById - {options[i].id};
      var fragment := SelectedOptionFragment(options[i], value);
      if fragment.Err? {
        return Err;
      }
      PrependTwice(fragments, Kept(fragment.value), Walk(options[i + 1..], selectedById));
      if fragment.value != "" {
        fragments := fragments + [fragment.value];
      }
    }
    assert options[|options|..] == [] && fragments + [] == fragments;
    if selectedById != map[] {
      return Err;
    }
    return Ok(fragments);
  }

  lemma {:induction false} WalkNothing(options: seq<TargetOption>)
    ensures Walk(options, map[]) == Ok([])
  {
    if options != [] { WalkNothing(options[1..]); }
  }

  lemma {:induction false} ChosenKeys(selected: seq<SelectedOption>)
    ensures forall id :: id in ChosenMap(selected) <==> id in Ids(selected)
  {
    if selected != [] {
      ChosenKeys(selected[..|selected| - 1]);
      assert Ids(selected) == Ids(selected[..|selected| - 1]) + [selected[|selected| - 1].id];
    }
  }

  lemma RepeatedId(selected: seq<SelectedOption>, i: nat)
    requires i < |selected| && selected[i].id in Ids(selected[..i])
    ensures !NoDup(Ids(selected))
  {
    var k :| 0 <= k < i && Ids(selected[..i])[k] == selected[i].id;
    assert Ids(selected)[k] == Ids(selected)[i];
  }

  // ---------------------------------------------------------------- acceptance and order

  /** The declaration a selection is matched with: the first one carrying its id. */
  function FirstDeclared(options: seq<TargetOption>, id: string): Option<TargetOption> {
    if options == [] then None
    else if options[0].id == id then Some(options[0])
    else FirstDeclared(options[1..], id)
  }

  predicate Accepts(options: seq<TargetOption>, id: string, value: string) {
    var declared := FirstDeclared(options, id);
    declared.Some? && OptionFragment(declared.value, value).Ok?
  }

  lemma {:induction false} WalkAcceptsIff(options: seq<TargetOption>, chosen: Chosen)
    ensures Walk(options, chosen).Ok? <==> forall id :: id in chosen ==> Accepts(options, id, chosen[id])
  {
    if options == [] {
      if chosen != map[] {
        var id :| id in chosen;
        assert !Accepts(options, id, chosen[id]);
      }
    } else {
      var o, rest := options[0], options[1..];
      if o.id in chosen {
        var less := chosen - {o.id};
        WalkAcceptsIff(rest, less);
        assert Accepts(options, o.id, chosen[o.id]) <==> OptionFragment(o, chosen[o.id]).Ok?;
        assert forall id :: id in less ==> (Accepts(options, id, chosen[id]) <==> Accepts(rest, id, less[id]));
        assert forall id :: id in chosen ==> id == o.id || id in less;
      } else {
        WalkAcceptsIff(rest, chosen);
        assert forall id :: id in chosen ==> (Accepts(options, id, chosen[id]) <==> Accepts(rest, id, chosen[id]));
      }
    }
  }

  lemma {:induction false} ChosenValues(selected: seq<SelectedOption>)
    requires NoDup(Ids(selected))
    ensures forall i :: 0 <= i < |selected| ==>
      selected[i].id in ChosenMap(selected) && ChosenMap(selected)[selected[i].id] == selected[i].value
  {
    if selected != [] {
      var front, last := selected[..|selected| - 1], |selected| - 1;
      assert forall i :: 0 <= i < last ==> Ids(front)[i] == Ids(selected)[i];
      ChosenValues(front);
      forall i | 0 <= i < |selected|
        ensures selected[i].id in ChosenMap(selected) && ChosenMap(selected)[selected[i].id] == selected[i].value
      {
        if i < last {
          assert front[i] == selected[i];
          assert Ids(selected)[i] != Ids(selected)[last];
        }
      }
    }
  }

  /** Acceptance: every selection is non-blank, unique, declared and valid for its declaration. */
  lemma AcceptedIff(options: seq<TargetOption>, selected: seq<SelectedOption>)
    ensures Compile(options, selected).Ok? <==>
      && WellSelected(selected)
      && forall i :: 0 <= i < |selected| ==> Accepts(options, selected[i].id, selected[i].value)
  {
    if WellSelected(selected) {
      WalkAcceptsIff(options, ChosenMap(selected));
      ChosenValues(selected);
      ChosenKeys(selected);
      var chosen := ChosenMap(selected);
      forall id | id in chosen
        ensures exists i :: 0 <= i < |selected| && selected[i].id == id && selected[i].value == chosen[id]
      {
        var i :| 0 <= i < |selected| && Ids(selected)[i] == id;
        assert selected[i].id == id;
      }
    }
  }

  lemma IdsPermuted(a: seq<SelectedOption>, b: seq<SelectedOption>)
    requires multiset(a) == multiset(b)
    ensures |a| == |b|
    ensures forall id :: id in Ids(a) ==> id in Ids(b)
  {
    assert |multiset(a)| == |a| && |multiset(b)| == |b|;
    forall id | id in Ids(a) ensures id in Ids(b) {
      var i :| 0 <= i < |a| && Ids(a)[i] == id;
      assert a[i] in multiset(a);
      assert a[i] in b;
      var j :| 0 <= j < |b| && b[j] == a[i];
      assert Ids(b)[j] == id;
    }
  }

  lemma WellSelectedPermuted(a: seq<SelectedOption>, b: seq<SelectedOption>)
    requires multiset(a) == multiset(b) && WellSelected(a)
    ensures WellSelected(b) && ChosenMap(a) == ChosenMap(b)
  {
    IdsPermuted(a, b);
    IdsPermuted(b, a);
    NoDupPermutation(Ids(a), Ids(b));
    forall i | 0 <= i < |b| ensures b[i] in a {
      assert b[i] in multiset(b);
    }
    SameChoices(a, b);
  }

  lemma SameChoices(a: seq<SelectedOption>, b: seq<SelectedOption>)
    requires NoDup(Ids(a)) && NoDup(Ids(b)) && (forall id :: id in Ids(a) <==> id in Ids(b))
    requires forall i :: 0 <= i < |b| ==> b[i] in a
    ensures ChosenMap(a) == ChosenMap(b)
  {
    ChosenKeys(a);
    ChosenKeys(b);
    ChosenValues(a);
    ChosenValues(b);
    forall id | id in ChosenMap(a) ensures ChosenMap(a)[id] == ChosenMap(b)[id] {
      var j :| 0 <= j < |b| && Ids(b)[j] == id;
      assert b[j] in a;
    }
  }

  /** The outcome is the same for every order of the selections. */
  lemma OrderIndependent(options: seq<TargetOption>, a: seq<SelectedOption>, b: seq<SelectedOption>)
    requires multiset(a) == multiset(b)
    ensures Compile(options, a) == Compile(options, b)
  {
    if WellSelected(a) {
      WellSelectedPermuted(a, b);
    } else if WellSelected(b) {
      WellSelectedPermuted(b, a);
    }
  }

  // ---------------------------------------------------------------- fragments in catalog order

  predicate FirstAt(options: seq<TargetOption>, i: nat)
    requires i < |options|
  {
    forall j :: 0 <= j < i ==> options[j].id != options[i].id
  }

  /** Fragment contributed by declaration `i`: nothing for repeated or unselected declarations. */
  function Contribution(options: seq<TargetOption>, i: nat, chosen: Chosen): seq<string>
    requires i < |options|
  {
    if FirstAt(options, i) && options[i].id in chosen && OptionFragment(options[i], chosen[options[i].id]).Ok?
    then Kept(OptionFragment(options[i], chosen[options[i].id]).value)
    else []
  }

  function Contributions(options: seq<TargetOption>, chosen: Chosen, n: nat): seq<string>
    requires n <= |options|
  {
    if n == 0 then [] else Contributions(options, chosen, n - 1) + Contribution(options, n - 1, chosen)
  }

  lemma {:induction false} ContributionsShift(options: seq<TargetOption>, chosen: Chosen, n: nat)
    requires 0 < |options| && n < |options|
    ensures Contributions(options, chosen, n + 1)
         == Contribution(options, 0, chosen) + Contributions(options[1..], chosen - {options[0].id}, n)
  {
    if n > 0 {
      ContributionsShift(options, chosen, n - 1);
      var rest := options[1..];
      assert rest[n - 1] == options[n];
      assert FirstAt(options, n) <==> options[n].id != options[0].id && FirstAt(rest, n - 1) by {
        assert forall j :: 0 <= j < n - 1 ==> rest[j] == options[j + 1];
        assert forall j :: 1 <= j < n ==> options[j] == rest[j - 1];
      }
    }
  }

  /** On success the fragments are the declarations' contributions in catalog order. */
  lemma {:induction false} WalkInCatalogOrder(options: seq<TargetOption>, chosen: Chosen)
    requires Walk(options, chosen).Ok?
    ensures Walk(options, chosen).value == Contributions(options, chosen, |options|)
  {
    if options != [] {
      var o := options[0];
      var less := chosen - {o.id};
      ContributionsShift(options, chosen, |options| - 1);
      assert FirstAt(options, 0);
      if o.id !in chosen {
        assert less == chosen;
      }
      WalkInCatalogOrder(options[1..], less);
    }
  }
}
