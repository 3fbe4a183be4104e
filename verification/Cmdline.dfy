/**
  Kernel command lines as token lists: provider default, selected fragments,
  operator append (internal/provider/provider.go, internal/app/app.go).
 */
module Cmdline {
  import opened Common
  import opened Text
  import opened Provider
  import opened Options

  /** `appendCmdline`, which internal/app and internal/provider both define. */
  function AppendCmdline(base: string, extra: string): string {
    var b, e := TrimSpace(base), TrimSpace(extra);
    if b == "" then e else if e == "" then b else b + " " + e
  }

  function Tokens(fragments: seq<string>): seq<string> {
    if fragments == [] then [] else Fields(fragments[0]) + Tokens(fragments[1..])
  }

  lemma AppendTokens(base: string, extra: string)
    ensures Fields(AppendCmdline(base, extra)) == Fields(base) + Fields(extra)
  {
    FieldsTrimSpace(base);
    FieldsTrimSpace(extra);
    var b, e := TrimSpace(base), TrimSpace(extra);
    FieldsAroundSpace(b, ' ', e);
    assert b + [' '] + e == b + " " + e;
  }

  lemma {:induction false} JoinTokens(fragments: seq<string>)
    ensures Fields(Join(fragments, " ")) == Tokens(fragments)
  {
    if |fragments| == 1 {
      assert Tokens(fragments[1..]) == [];
    } else if |fragments| > 1 {
      JoinTokens(fragments[1..]);
      FieldsAroundSpace(fragments[0], ' ', Join(fragments[1..], " "));
    }
  }

  /** `ApplySelectedOptions`. */
  function ApplySelectedOptions(plan: BootPlan, selected: seq<SelectedOption>): Result<BootPlan> {
    var fragments := Compile(plan.target.options, selected);
    if fragments.Err? then Err
    else if ResolveAction(plan.action).FreeBSDKboot? then
      Ok(plan.(kbootArgs := plan.kbootArgs + fragments.value))
    else
      Ok(plan.(cmdline := AppendCmdline(plan.cmdline, Join(fragments.value, " "))))
  }

  /** Applying options changes nothing but the command line or the arguments. */
  lemma ApplyKeepsRest(plan: BootPlan, selected: seq<SelectedOption>)
    requires ApplySelectedOptions(plan, selected).Ok?
    ensures ApplySelectedOptions(plan, selected).value.(cmdline := plan.cmdline, kbootArgs := plan.kbootArgs) == plan
  {
  }

  /** `applyCmdlineAppend`. */
  function ApplyCmdlineAppend(plan: BootPlan, extra: string): BootPlan {
    plan.(cmdline := AppendCmdline(plan.cmdline, extra))
  }

  // ---------------------------------------------------------------- template expansion

  /** Start of the longest suffix without white space. */
  function TailStart(s: string): (k: nat)
    ensures k <= |s| && SpaceFree(s[k..]) && (k > 0 ==> IsSpace(s[k - 1]))
  {
    if s == [] || IsSpace(s[|s| - 1]) then |s|
    else
      var k := TailStart(s[..|s| - 1]);
      assert s[k..] == s[..|s| - 1][k..] + [s[|s| - 1]];
      k
  }

  lemma RegroupAroundHole(left: string, w: string, right: string, k: nat, n: nat)
    requires k <= |left| && n <= |right|
    ensures left + w + right == left[..k] + (left[k..] + w + right[..n]) + right[n..]
  {
    assert left == left[..k] + left[k..];
    assert right == right[..n] + right[n..];
  }

  lemma SpaceFreeAround(a: string, w: string, b: string)
    requires SpaceFree(a) && SpaceFree(w) && SpaceFree(b)
    ensures SpaceFree(a + w + b)
  {
  }

  /** Whatever word stands between two texts, the fields around it are the same. */
  lemma FieldsAroundHole(left: string, w: string, right: string)
    requires w != "" && SpaceFree(w)
    ensures
      var k, n := TailStart(left), WordLen(right);
      Fields(left + w + right) == Fields(left[..k]) + [left[k..] + w + right[..n]] + Fields(right[n..])
  {
    var k, n := TailStart(left), WordLen(right);
    var word := left[k..] + w + right[..n];
    SpaceFreeAround(left[k..], w, right[..n]);
    RegroupAroundHole(left, w, right, k, n);
    FieldsAroundWord(left[..k], word, right[n..]);
  }

  lemma {:induction false} CountZero(s: string, v: string)
    requires v != "" && Count(s, v) == 0
    ensures !Occurs(v, s)
    decreases |s|
  {
    if |s| >= |v| {
      CountZero(s[1..], v);
      OccursAtHead(v, s);
      forall i | 0 <= i <= |s| - |v| ensures !OccursAt(v, s, i) {
        if i > 0 { OccursAtTail(v, s, 1, i - 1); }
      }
    }
  }

  /** Where the one occurrence of a text with count one is. */
  lemma {:induction false} CountOnePlace(s: string, v: string) returns (k: nat)
    requires v != "" && Count(s, v) == 1
    ensures OccursAt(v, s, k) && (forall i :: 0 <= i < k ==> !OccursAt(v, s, i)) && !Occurs(v, s[k + |v|..])
    decreases |s|
  {
    OccursAtHead(v, s);
    if v <= s {
      k := 0;
      CountZero(s[|v|..], v);
    } else {
      var j := CountOnePlace(s[1..], v);
      k := j + 1;
      OccursAtTail(v, s, 1, j);
      forall i | 0 < i < k ensures !OccursAt(v, s, i) { OccursAtTail(v, s, 1, i - 1); }
      assert s[1..][j + |v|..] == s[k + |v|..];
    }
  }

  /** Such a text splits around the occurrence, and replacing is a substitution there. */
  lemma CountOne(s: string, v: string, x: string) returns (k: nat)
    requires v != "" && Count(s, v) == 1
    ensures OccursAt(v, s, k) && ReplaceAll(s, v, x) == s[..k] + x + s[k + |v|..]
    ensures (forall i :: 0 <= i < k ==> !OccursAt(v, s, i)) && !Occurs(v, s[k + |v|..])
  {
    k := CountOnePlace(s, v);
    ReplaceAllAtFirst(s, k, v, x);
    ReplaceAllAbsent(s[k + |v|..], v, x);
  }

  lemma ReplaceMiddle(pre: seq<string>, x: string, y: string, post: seq<string>)
    ensures (pre + [x] + post)[|pre|] == x
    ensures (pre + [x] + post)[|pre| := y] == pre + [y] + post
  {
  }

  /**
    Expanding a valid template with a valid value rewrites exactly one token, at
    the place of `{value}` inside it, and keeps the number of tokens.
   */
  lemma ExpandOneToken(template: string, value: string) returns (i: nat, a: string, b: string)
    requires ValidTemplate(template) && ValidValue(value)
    ensures i < |Fields(template)| && Fields(template)[i] == a + VALUE + b
    ensures Fields(Expand(template, value)) == Fields(template)[i := a + value + b]
  {
    var left, right := ExpandedShape(template, value);
    PiecesAreTokens(value);
    i, a, b := ExchangeWord(left, VALUE, value, right);
  }

  lemma PiecesAreTokens(value: string)
    requires ValidValue(value)
    ensures VALUE != "" && SpaceFree(VALUE) && value != "" && SpaceFree(value)
  {
    assert TrimSpace("") == "";
  }

  /** Exchanging one space-free piece for another changes the one token around it. */
  lemma ExchangeWord(left: string, x: string, y: string, right: string) returns (i: nat, a: string, b: string)
    requires x != "" && SpaceFree(x) && y != "" && SpaceFree(y)
    ensures i < |Fields(left + x + right)| && Fields(left + x + right)[i] == a + x + b
    ensures Fields(left + y + right) == Fields(left + x + right)[i := a + y + b]
  {
    FieldsAroundHole(left, x, right);
    FieldsAroundHole(left, y, right);
    var t, n := TailStart(left), WordLen(right);
    i, a, b := |Fields(left[..t])|, left[t..], right[..n];
    ReplaceMiddle(Fields(left[..t]), a + x + b, a + y + b, Fields(right[n..]));
  }

  lemma TightIff(s: string)
    requires s != ""
    ensures TrimSpace(s) == s <==> !IsSpace(s[0]) && !IsSpace(s[|s| - 1])
  {
    if !IsSpace(s[0]) {
      assert TrimLeft(s) == s;
      if IsSpace(s[|s| - 1]) {
        TrimRightEnds(s[..|s| - 1]);
        assert |TrimRight(s)| < |s|;
      }
    } else {
      TrimLeftShorter(s[1..]);
      TrimRightEnds(TrimLeft(s));
      assert |TrimSpace(s)| < |s|;
    }
  }

  lemma {:induction false} TrimLeftShorter(s: string)
    ensures |TrimLeft(s)| <= |s|
  {
    if s != [] && IsSpace(s[0]) { TrimLeftShorter(s[1..]); }
  }

  lemma ExpandedShape(template: string, value: string) returns (left: string, right: string)
    requires ValidTemplate(template)
    ensures template == left + VALUE + right && Expand(template, value) == left + value + right
    ensures Occurs(VALUE, template)
  {
    var k := CountOne(template, VALUE, value);
    left, right := template[..k], template[k + |VALUE|..];
    assert OccursAt(VALUE, template, k);
  }

  lemma NoControlAround(left: string, mid: string, right: string, value: string)
    requires !HasControl(left + mid + right) && !HasControl(value)
    ensures !HasControl(left + value + right)
  {
    var whole := left + mid + right;
    assert forall i :: 0 <= i < |left| ==> whole[i] == left[i];
    assert forall i :: 0 <= i < |right| ==> whole[|left| + |mid| + i] == right[i];
  }

  lemma TightAround(left: string, mid: string, right: string, value: string)
    requires mid != "" && value != ""
    requires TrimSpace(left + mid + right) == left + mid + right && TrimSpace(value) == value
    ensures TrimSpace(left + value + right) == left + value + right
  {
    var whole, out := left + mid + right, left + value + right;
    TightIff(whole);
    TightIff(value);
    TightIff(out);
    assert out[0] == if left == "" then value[0] else whole[0];
    assert out[|out| - 1] == if right == "" then value[|value| - 1] else whole[|whole| - 1];
  }

  /**
    A declared string option accepts a valid value exactly when the expansion
    does not spell `{value}` again; the token it lands in then really changes.
   */
  lemma ExpansionAcceptedIff(option: TargetOption, value: string)
    requires option.kind.StringKind? && ValidTemplate(option.template)
    ensures OptionFragment(option, value).Ok? <==> ValidValue(value) && !Occurs(VALUE, Expand(option.template, value))
    ensures OptionFragment(option, value).Ok? ==>
      OptionFragment(option, value).value == Expand(option.template, value) != option.template
  {
    if ValidValue(value) {
      var left, right := ExpandedShape(option.template, value);
      assert value != "";
      NoControlAround(left, VALUE, right, value);
      TightAround(left, VALUE, right, value);
    }
  }

  // ---------------------------------------------------------------- what a selection means

  /** The text has a hole at `k` and nowhere else. */
  predicate OneHole(s: string, k: nat) {
    OccursAt("{value}", s, k) && forall j :: 0 <= j <= |s| && j != k ==> !OccursAt("{value}", s, j)
  }

  predicate NoControls(s: string) {
    forall i :: 0 <= i < |s| ==> !IsControl(s[i])
  }

  /** Text without white space or control characters. */
  predicate PlainWord(s: string) {
    s != "" && NoControls(s) && forall i :: 0 <= i < |s| ==> !IsSpace(s[i])
  }

  lemma NoControlsIff(s: string)
    ensures HasControl(s) <==> !NoControls(s)
  {
  }

  /** The checks on a selected string value accept exactly plain words. */
  lemma ValidValueIff(value: string)
    ensures ValidValue(value) <==> PlainWord(value)
  {
    NoControlsIff(value);
    if PlainWord(value) {
      assert SpaceFree(value);
      TrimSpaceFree(value);
    } else if value == "" {
      assert TrimSpace("") == "";
    }
  }

  /** Two holes do not overlap. */
  lemma HolesApart(s: string, i: nat, j: nat)
    requires OccursAt(VALUE, s, i) && OccursAt(VALUE, s, j) && i < j
    ensures i + |VALUE| <= j
  {
    if j < i + |VALUE| {
      var d := j - i;
      assert s[i..i + |VALUE|][d] == s[j] == s[j..j + |VALUE|][0];
      HoleOpensOnce(d);
    }
  }

  lemma HoleOpensOnce(d: nat)
    requires 0 < d < |VALUE|
    ensures VALUE[d] != VALUE[0]
  {
    assert VALUE[0] == '{' && VALUE[1] == 'v' && VALUE[2] == 'a' && VALUE[3] == 'l';
    assert VALUE[4] == 'u' && VALUE[5] == 'e' && VALUE[6] == '}';
  }

  lemma {:induction false} CountAbsent(s: string, v: string)
    requires v != "" && !Occurs(v, s)
    ensures Count(s, v) == 0
    decreases |s|
  {
    if |s| >= |v| {
      OccursAtHead(v, s);
      AbsentInTail(v, s, 1);
      CountAbsent(s[1..], v);
    }
  }

  lemma {:induction false} CountUnique(s: string, k: nat)
    requires OneHole(s, k)
    ensures Count(s, VALUE) == 1
    decreases |s|
  {
    OccursAtHead(VALUE, s);
    if VALUE <= s {
      assert k == 0;
      forall i | 0 <= i <= |s| - 2 * |VALUE| ensures !OccursAt(VALUE, s[|VALUE|..], i) {
        OccursAtTail(VALUE, s, |VALUE|, i);
      }
      CountAbsent(s[|VALUE|..], VALUE);
    } else {
      OccursAtTail(VALUE, s, 1, k - 1);
      forall j | 0 <= j <= |s| - 1 && j != k - 1 ensures !OccursAt(VALUE, s[1..], j) { OccursAtTail(VALUE, s, 1, j); }
      CountUnique(s[1..], k - 1);
    }
  }

  lemma CountOneHole(s: string) returns (k: nat)
    requires Count(s, VALUE) == 1
    ensures OneHole(s, k)
  {
    k := CountOne(s, VALUE, "");
    forall j | 0 <= j <= |s| && j != k ensures !OccursAt(VALUE, s, j) {
      if j > k {
        if OccursAt(VALUE, s, j) { HolesApart(s, k, j); }
        if j >= k + |VALUE| { OccursAtTail(VALUE, s, k + |VALUE|, j - k - |VALUE|); }
      }
    }
  }

  lemma TightTrim(s: string)
    ensures !Blank(s) && TrimSpace(s) == s <==> Tight(s)
  {
    BlankTextIff(s);
  }

  /** A fragment is accepted exactly when it is tight text without hole and control characters, or may be missing. */
  lemma ValidFragmentIff(fragment: string, required: bool)
    ensures ValidFragment(fragment, required) <==>
      if fragment == "" then !required
      else Tight(fragment) && NoControls(fragment) && !Occurs("{value}", fragment)
  {
    BlankTextIff(fragment);
    NoControlsIff(fragment);
  }

  /** The checks on a template accept exactly tight text with one hole and no control characters. */
  lemma ValidTemplateIff(template: string)
    ensures ValidTemplate(template) <==>
      Tight(template) && NoControls(template) && exists k: nat :: OneHole(template, k)
  {
    TightTrim(template);
    NoControlsIff(template);
    if Count(template, VALUE) == 1 {
      var k := CountOneHole(template);
    }
    forall k: nat | OneHole(template, k) ensures Count(template, VALUE) == 1 { CountUnique(template, k); }
  }

  /** The fragment that a value selects, by the kind of the declaration. */
  ghost predicate Selects(option: TargetOption, value: string, fragment: string) {
    match option.kind
    case BoolKind => (value == "true" && fragment == option.fragment) || (value == "false" && fragment == "")
    case EnumKind =>
      exists k ::
        0 <= k < |option.values| && FirstValue(option.values, k, value) && fragment == option.values[k].fragment
    case StringKind =>
      && PlainWord(value) && !Occurs("{value}", fragment)
      && exists k: nat ::
           OneHole(option.template, k) && fragment == option.template[..k] + value + option.template[k + 7..]
    case OtherKind(_) => false
  }

  /** Declared value `k` is the first that equals the selection. */
  predicate FirstValue(values: seq<OptionValue>, k: nat, value: string)
    requires k < |values|
  {
    values[k].value == value && forall j :: 0 <= j < k ==> values[j].value != value
  }

  lemma {:induction false} EnumIff(values: seq<OptionValue>, value: string, fragment: string)
    ensures EnumFragment(values, value) == Ok(fragment) <==>
            exists k :: 0 <= k < |values| && FirstValue(values, k, value) && fragment == values[k].fragment
  {
    if values != [] {
      var rest := values[1..];
      EnumIff(rest, value, fragment);
      if values[0].value == value {
        assert FirstValue(values, 0, value);
        assert forall k :: 0 <= k < |values| && FirstValue(values, k, value) ==> k == 0;
      } else {
        EnumShift(values, value, fragment);
      }
    }
  }

  lemma EnumShift(values: seq<OptionValue>, value: string, fragment: string)
    requires values != [] && values[0].value != value
    ensures (exists k :: 0 <= k < |values| && FirstValue(values, k, value) && fragment == values[k].fragment) <==>
            (exists k ::
               0 <= k < |values[1..]| && FirstValue(values[1..], k, value) && fragment == values[1..][k].fragment)
  {
    var rest := values[1..];
    forall k | 0 <= k < |rest| ensures FirstValue(rest, k, value) <==> FirstValue(values, k + 1, value) {
      assert forall j :: 0 <= j < |rest| ==> rest[j] == values[j + 1];
      assert forall j :: 0 < j < |values| ==> values[j] == rest[j - 1];
    }
    forall k | 0 <= k < |values| && FirstValue(values, k, value) && fragment == values[k].fragment
      ensures exists i :: 0 <= i < |rest| && FirstValue(rest, i, value) && fragment == rest[i].fragment
    {
      assert FirstValue(rest, k - 1, value) && rest[k - 1] == values[k];
    }
    forall k | 0 <= k < |rest| && FirstValue(rest, k, value) && fragment == rest[k].fragment
      ensures exists i :: 0 <= i < |values| && FirstValue(values, i, value) && fragment == values[i].fragment
    {
      assert FirstValue(values, k + 1, value) && rest[k] == values[k + 1];
    }
  }

  /** Replacing the only hole puts the value between what is before and behind it. */
  lemma ExpandAtHole(template: string, k: nat, value: string)
    requires OneHole(template, k)
    ensures Expand(template, value) == template[..k] + value + template[k + 7..]
  {
    var rest := template[k + |VALUE|..];
    ReplaceAllAtFirst(template, k, VALUE, value);
    forall i | 0 <= i <= |rest| - |VALUE| ensures !OccursAt(VALUE, rest, i) {
      OccursAtTail(VALUE, template, k + |VALUE|, i);
    }
    ReplaceAllAbsent(rest, VALUE, value);
  }

  lemma StringIff(option: TargetOption, value: string, fragment: string)
    requires option.kind.StringKind? && ValidTemplate(option.template)
    ensures OptionFragment(option, value) == Ok(fragment) <==> Selects(option, value, fragment)
  {
    ExpansionAcceptedIff(option, value);
    ValidValueIff(value);
    ValidTemplateIff(option.template);
    var hole: nat :| OneHole(option.template, hole);
    forall k: nat | OneHole(option.template, k)
      ensures Expand(option.template, value) == option.template[..k] + value + option.template[k + 7..]
    {
      ExpandAtHole(option.template, k, value);
    }
  }

  /**
    Exactly which fragment a selection of a validated declaration gives: for a
    bool the fragment or nothing, for an enum that of the declared value, for a
    string the template around the value; everything else is an error.
   */
  lemma {:induction false} FragmentIff(option: TargetOption, value: string, fragment: string)
    requires option.kind.StringKind? ==> ValidTemplate(option.template)
    ensures OptionFragment(option, value) == Ok(fragment) <==> Selects(option, value, fragment)
  {
    match option.kind {
      case BoolKind =>
      case EnumKind => EnumIff(option.values, value, fragment);
      case StringKind => StringIff(option, value, fragment);
      case OtherKind(_) =>
    }
  }

  /** The templates of string options have been validated, as they are before a target is listed. */
  predicate TemplatesValid(options: seq<TargetOption>) {
    forall i :: 0 <= i < |options| && options[i].kind.StringKind? ==> ValidTemplate(options[i].template)
  }

  /** Declaration `i` is the first one with its id, and selection `k` names it. */
  predicate Picks(options: seq<TargetOption>, selected: seq<SelectedOption>, i: nat, k: nat)
    requires i < |options| && k < |selected|
  {
    selected[k].id == options[i].id && forall j :: 0 <= j < i ==> options[j].id != options[i].id
  }

  /** One piece per declaration: what its selection gives, or nothing if it is not selected. */
  ghost predicate PiecesOf(options: seq<TargetOption>, selected: seq<SelectedOption>, pieces: seq<string>) {
    && |pieces| == |options|
    && (forall i, k :: 0 <= i < |options| && 0 <= k < |selected| && Picks(options, selected, i, k) ==>
          Selects(options[i], selected[k].value, pieces[i]))
    && (forall i :: 0 <= i < |options| && (forall k :: 0 <= k < |selected| ==> !Picks(options, selected, i, k)) ==>
          pieces[i] == "")
  }

  function NonEmptyPieces(pieces: seq<string>): seq<string> {
    if pieces == [] then []
    else NonEmptyPieces(pieces[..|pieces| - 1]) + (if pieces[|pieces| - 1] == "" then [] else [pieces[|pieces| - 1]])
  }

  lemma {:induction false} NonEmptyPiecesPrefix(pieces: seq<string>, n: nat)
    requires n < |pieces|
    ensures NonEmptyPieces(pieces[..n + 1]) == NonEmptyPieces(pieces[..n]) + Options.Kept(pieces[n])
  {
    assert pieces[..n + 1][..n] == pieces[..n];
  }

  /** The piece of declaration `i`, given that its selection, if any, was accepted. */
  function Piece(options: seq<TargetOption>, chosen: Chosen, i: nat): string
    requires i < |options|
  {
    if FirstAt(options, i) && options[i].id in chosen && OptionFragment(options[i], chosen[options[i].id]).Ok?
    then OptionFragment(options[i], chosen[options[i].id]).value else ""
  }

  lemma {:induction false} ContributionsArePieces(
    options: seq<TargetOption>, chosen: Chosen, pieces: seq<string>, n: nat)
    requires |pieces| == |options| && n <= |options|
    requires forall i :: 0 <= i < |options| ==> pieces[i] == Piece(options, chosen, i)
    ensures Contributions(options, chosen, n) == NonEmptyPieces(pieces[..n])
  {
    if n > 0 {
      ContributionsArePieces(options, chosen, pieces, n - 1);
      NonEmptyPiecesPrefix(pieces, n - 1);
    }
  }

  /** A picked declaration is the one its selection is matched with. */
  lemma {:induction false} PickedIsDeclared(options: seq<TargetOption>, i: nat)
    requires i < |options| && FirstAt(options, i)
    ensures FirstDeclared(options, options[i].id) == Some(options[i])
  {
    if i > 0 {
      assert options[0].id != options[i].id;
      var rest := options[1..];
      assert rest[i - 1] == options[i] && forall j :: 0 <= j < i - 1 ==> rest[j] == options[j + 1];
      PickedIsDeclared(rest, i - 1);
    }
  }

  lemma PickedPiece(options: seq<TargetOption>, selected: seq<SelectedOption>, i: nat, k: nat)
    requires TemplatesValid(options) && Compile(options, selected).Ok?
    requires i < |options| && k < |selected| && Picks(options, selected, i, k)
    ensures Selects(options[i], selected[k].value, Piece(options, ChosenMap(selected), i))
  {
    AcceptedIff(options, selected);
    ChosenValues(selected);
    PickedIsDeclared(options, i);
    assert Accepts(options, selected[k].id, selected[k].value);
    FragmentIff(options[i], selected[k].value, OptionFragment(options[i], selected[k].value).value);
  }

  lemma UnpickedPiece(options: seq<TargetOption>, selected: seq<SelectedOption>, i: nat)
    requires i < |options| && forall k :: 0 <= k < |selected| ==> !Picks(options, selected, i, k)
    ensures Piece(options, ChosenMap(selected), i) == ""
  {
    if FirstAt(options, i) && options[i].id in ChosenMap(selected) {
      var k := ChosenIsPicked(options, selected, i);
    }
  }

  lemma ChosenIsPicked(options: seq<TargetOption>, selected: seq<SelectedOption>, i: nat) returns (k: nat)
    requires i < |options| && FirstAt(options, i) && options[i].id in ChosenMap(selected)
    ensures k < |selected| && Picks(options, selected, i, k)
  {
    ChosenKeys(selected);
    k :| 0 <= k < |selected| && Ids(selected)[k] == options[i].id;
  }

  /** What a successful compile consists of: one piece per declaration, in catalog order, empty ones left out. */
  lemma {:induction false} CompiledPieces(options: seq<TargetOption>, selected: seq<SelectedOption>)
    returns (pieces: seq<string>)
    requires TemplatesValid(options) && Compile(options, selected).Ok?
    ensures PiecesOf(options, selected, pieces) && Compile(options, selected).value == NonEmptyPieces(pieces)
  {
    var chosen := ChosenMap(selected);
    pieces := seq(|options|, i requires 0 <= i < |options| => Piece(options, chosen, i));
    forall i, k | 0 <= i < |options| && 0 <= k < |selected| && Picks(options, selected, i, k)
      ensures Selects(options[i], selected[k].value, pieces[i])
    {
      PickedPiece(options, selected, i, k);
    }
    forall i | 0 <= i < |options| && forall k :: 0 <= k < |selected| ==> !Picks(options, selected, i, k)
      ensures pieces[i] == ""
    {
      UnpickedPiece(options, selected, i);
    }
    WalkInCatalogOrder(options, chosen);
    ContributionsArePieces(options, chosen, pieces, |options|);
    assert pieces[..|options|] == pieces;
  }

  /** Some declared value or text makes the selection acceptable. */
  ghost predicate Selectable(option: TargetOption, value: string) {
    exists fragment :: Selects(option, value, fragment)
  }

  /** The selection picks a declaration that accepts it. */
  ghost predicate Taken(options: seq<TargetOption>, selected: seq<SelectedOption>, k: nat)
    requires k < |selected|
  {
    exists i :: 0 <= i < |options| && Picks(options, selected, i, k) && Selectable(options[i], selected[k].value)
  }

  lemma {:induction false} DeclaredIsPicked(options: seq<TargetOption>, id: string) returns (i: nat)
    requires FirstDeclared(options, id).Some?
    ensures i < |options| && options[i].id == id && FirstAt(options, i)
    ensures options[i] == FirstDeclared(options, id).value
  {
    i := 0;
    if options[0].id != id {
      var j := DeclaredIsPicked(options[1..], id);
      i := j + 1;
      assert forall m :: 0 < m < |options| ==> options[m] == options[1..][m - 1];
    }
  }

  lemma AcceptsIff(options: seq<TargetOption>, selected: seq<SelectedOption>, k: nat)
    requires TemplatesValid(options) && k < |selected|
    ensures Accepts(options, selected[k].id, selected[k].value) <==> Taken(options, selected, k)
  {
    var id, value := selected[k].id, selected[k].value;
    if Accepts(options, id, value) {
      var i := DeclaredIsPicked(options, id);
      FragmentIff(options[i], value, OptionFragment(options[i], value).value);
      assert Picks(options, selected, i, k) && Selectable(options[i], value);
    }
    forall i | 0 <= i < |options| && Picks(options, selected, i, k) && Selectable(options[i], value)
      ensures Accepts(options, id, value)
    {
      var fragment :| Selects(options[i], value, fragment);
      PickedIsDeclared(options, i);
      FragmentIff(options[i], value, fragment);
    }
  }

  /** Exactly which selections compile: ids not blank and distinct, each picking a declaration that accepts it. */
  lemma {:induction false} CompileIff(options: seq<TargetOption>, selected: seq<SelectedOption>)
    requires TemplatesValid(options)
    ensures Compile(options, selected).Ok? <==>
      && (forall k :: 0 <= k < |selected| ==> !Blank(selected[k].id))
      && (forall j, k :: 0 <= j < k < |selected| ==> selected[j].id != selected[k].id)
      && (forall k :: 0 <= k < |selected| ==> Taken(options, selected, k))
  {
    AcceptedIff(options, selected);
    forall k | 0 <= k < |selected|
      ensures Accepts(options, selected[k].id, selected[k].value) <==> Taken(options, selected, k)
    {
      AcceptsIff(options, selected, k);
    }
    WellSelectedIff(selected);
  }

  lemma WellSelectedIff(selected: seq<SelectedOption>)
    ensures WellSelected(selected) <==>
      && (forall k :: 0 <= k < |selected| ==> !Blank(selected[k].id))
      && (forall j, k :: 0 <= j < k < |selected| ==> selected[j].id != selected[k].id)
  {
    var ids := Ids(selected);
    assert forall k :: 0 <= k < |selected| ==> ids[k] == selected[k].id;
    if NoDup(ids) {
      forall j, k | 0 <= j < k < |selected| ensures selected[j].id != selected[k].id { assert ids[j] != ids[k]; }
    }
  }

  // ---------------------------------------------------------------- the final command line

  lemma {:induction false} TokensConcat(a: seq<string>, b: seq<string>)
    ensures Tokens(a + b) == Tokens(a) + Tokens(b)
    decreases |a|
  {
    if a == [] {
      assert a + b == b;
    } else {
      assert (a + b)[1..] == a[1..] + b;
      TokensConcat(a[1..], b);
    }
  }

  /** Empty pieces have no tokens. */
  lemma {:induction false} TokensOfPieces(pieces: seq<string>)
    ensures Tokens(NonEmptyPieces(pieces)) == Tokens(pieces)
    decreases |pieces|
  {
    if pieces != [] {
      var front, last := pieces[..|pieces| - 1], pieces[|pieces| - 1];
      assert pieces == front + [last];
      TokensOfPieces(front);
      TokensConcat(front, [last]);
      TokensConcat(NonEmptyPieces(front), Options.Kept(last));
      TokensOfOne(last);
    }
  }

  lemma TokensOfOne(piece: string)
    ensures Tokens([piece]) == Fields(piece) && Tokens(Options.Kept(piece)) == Fields(piece)
  {
    assert [piece][1..] == [] && Fields(piece) + [] == Fields(piece);
  }

  /**
    The tokens of the final command line: the provider's, then those of the
    selected declarations in catalog order, then the operator's.  Nothing is
    lost, merged or reordered, and nothing but the command line changes.
   */
  lemma {:induction false} FinalTokens(plan: BootPlan, selected: seq<SelectedOption>, extra: string)
    returns (pieces: seq<string>)
    requires !ResolveAction(plan.action).FreeBSDKboot? && TemplatesValid(plan.target.options)
    requires ApplySelectedOptions(plan, selected).Ok?
    ensures PiecesOf(plan.target.options, selected, pieces)
    ensures
      var final := ApplyCmdlineAppend(ApplySelectedOptions(plan, selected).value, extra);
      && Fields(final.cmdline) == Fields(plan.cmdline) + Tokens(pieces) + Fields(extra)
      && final.(cmdline := plan.cmdline) == plan
  {
    var fragments := Compile(plan.target.options, selected).value;
    var applied := ApplySelectedOptions(plan, selected).value;
    pieces := CompiledPieces(plan.target.options, selected);
    TokensOfPieces(pieces);
    JoinTokens(fragments);
    AppendTokens(plan.cmdline, Join(fragments, " "));
    AppendTokens(applied.cmdline, extra);
  }

  /** A loader.kboot plan receives the pieces as arguments and keeps its command line. */
  lemma KbootArguments(plan: BootPlan, selected: seq<SelectedOption>) returns (pieces: seq<string>)
    requires ResolveAction(plan.action).FreeBSDKboot? && TemplatesValid(plan.target.options)
    requires ApplySelectedOptions(plan, selected).Ok?
    ensures PiecesOf(plan.target.options, selected, pieces)
    ensures ApplySelectedOptions(plan, selected).value
            == plan.(kbootArgs := plan.kbootArgs + NonEmptyPieces(pieces))
  {
    pieces := CompiledPieces(plan.target.options, selected);
  }
}
