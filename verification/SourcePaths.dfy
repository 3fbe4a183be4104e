/**
  Kernel and initrd paths: what `validateSourcePath` lets through, the URL it
  becomes and the file it is staged to (internal/provider/provider.go,
  internal/providers/linux/provider.go).
 */
module SourcePaths {
  import opened Text

  const SLASH: string := "/"

  // ---------------------------------------------------------------- path.Clean and path.Base

  /** One path element pushed onto the elements kept so far. */
  function Push(rooted: bool, stack: seq<string>, elem: string): seq<string> {
    if elem == "" || elem == "." then stack
    else if elem == ".." then
      if stack != [] && stack[|stack| - 1] != ".." then stack[..|stack| - 1]
      else if rooted then stack
      else stack + [".."]
    else stack + [elem]
  }

  function PushAll(rooted: bool, elems: seq<string>): seq<string> {
    if elems == [] then [] else Push(rooted, PushAll(rooted, elems[..|elems| - 1]), elems[|elems| - 1])
  }

  predicate Rooted(p: string) {
    p != "" && p[0] == '/'
  }

  function Kept(p: string): seq<string> {
    PushAll(Rooted(p), Split(p, '/'))
  }

  /** `path.Clean`. */
  function Clean(p: string): string {
    Rendered(Kept(p), Rooted(p))
  }

  function Rendered(stack: seq<string>, rooted: bool): string {
    if rooted then SLASH + Join(stack, SLASH) else if stack == [] then "." else Join(stack, SLASH)
  }

  /** `strings.TrimRight(p, "/")`. */
  function StripTrailingSlashes(p: string): (r: string)
    ensures r <= p && (forall i :: |r| <= i < |p| ==> p[i] == '/') && (r == "" || r[|r| - 1] != '/')
  {
    if p != "" && p[|p| - 1] == '/' then StripTrailingSlashes(p[..|p| - 1]) else p
  }

  /** `strings.TrimLeft(p, "/")`. */
  function StripLeadingSlashes(p: string): (r: string)
    ensures |r| <= |p| && p[|p| - |r|..] == r && (forall i :: 0 <= i < |p| - |r| ==> p[i] == '/')
    ensures r == "" || r[0] != '/'
  {
    if p != "" && p[0] == '/' then StripLeadingSlashes(p[1..]) else p
  }

  /** `path.Base`. */
  function Base(p: string): string {
    if p == "" then "."
    else
      var q := StripTrailingSlashes(p);
      if q == "" then SLASH else var elems := Split(q, '/'); elems[|elems| - 1]
  }

  // ---------------------------------------------------------------- cleaning is idempotent

  /** Only the front of a stack holds `..`; no element is empty, `.` or contains a slash. */
  predicate WellStacked(stack: seq<string>) {
    && (forall i :: 0 <= i < |stack| ==> stack[i] != "" && stack[i] != "." && '/' !in stack[i])
    && (forall i, j :: 0 <= i < j < |stack| && stack[j] == ".." ==> stack[i] == "..")
  }

  lemma {:induction false} PushAllWellStacked(rooted: bool, elems: seq<string>)
    requires forall i :: 0 <= i < |elems| ==> '/' !in elems[i]
    ensures WellStacked(PushAll(rooted, elems))
    ensures rooted ==> ".." !in PushAll(rooted, elems)
  {
    if elems != [] {
      var front, last := elems[..|elems| - 1], elems[|elems| - 1];
      PushAllWellStacked(rooted, front);
      PushWellStacked(rooted, PushAll(rooted, front), last);
    }
  }

  lemma PushWellStacked(rooted: bool, stack: seq<string>, elem: string)
    requires WellStacked(stack) && (rooted ==> ".." !in stack) && '/' !in elem
    ensures WellStacked(Push(rooted, stack, elem)) && (rooted ==> ".." !in Push(rooted, stack, elem))
  {
  }

  /** Pushing a stack again changes nothing. */
  lemma {:induction false} PushAllAgain(rooted: bool, stack: seq<string>)
    requires WellStacked(stack) && (rooted ==> ".." !in stack)
    ensures PushAll(rooted, stack) == stack
  {
    if stack != [] {
      WellStackedFront(rooted, stack);
      PushAllAgain(rooted, stack[..|stack| - 1]);
      PushLast(rooted, stack);
    }
  }

  lemma WellStackedFront(rooted: bool, stack: seq<string>)
    requires stack != [] && WellStacked(stack) && (rooted ==> ".." !in stack)
    ensures WellStacked(stack[..|stack| - 1]) && (rooted ==> ".." !in stack[..|stack| - 1])
  {
    var front := stack[..|stack| - 1];
    assert forall i :: 0 <= i < |front| ==> front[i] == stack[i];
  }

  /** Pushing the last element of a stack onto the others gives the stack. */
  lemma PushLast(rooted: bool, stack: seq<string>)
    requires stack != [] && WellStacked(stack) && (rooted ==> ".." !in stack)
    ensures Push(rooted, stack[..|stack| - 1], stack[|stack| - 1]) == stack
  {
    var front, last := stack[..|stack| - 1], stack[|stack| - 1];
    assert front + [last] == stack;
    assert last in stack;
    if last == ".." && front != [] {
      assert front[|front| - 1] == stack[|stack| - 2] == "..";
    }
  }

  lemma {:induction false} PushAllAfterEmpty(rooted: bool, elems: seq<string>)
    ensures PushAll(rooted, [""] + elems) == PushAll(rooted, elems)
    decreases |elems|
  {
    var all := [""] + elems;
    if elems == [] {
      assert all[..0] == [] && PushAll(rooted, all[..0]) == [];
      assert all[|all| - 1] == "";
    } else {
      assert all[..|all| - 1] == [""] + elems[..|elems| - 1] && all[|all| - 1] == elems[|elems| - 1];
      PushAllAfterEmpty(rooted, elems[..|elems| - 1]);
    }
  }

  lemma KeptOfRendered(stack: seq<string>, rooted: bool)
    requires WellStacked(stack) && (rooted ==> ".." !in stack)
    ensures Kept(Rendered(stack, rooted)) == stack && Rooted(Rendered(stack, rooted)) == rooted
  {
    PushAllAgain(rooted, stack);
    if stack == [] {
      SplitWithoutSeparator(".", '/');
      SplitWithoutSeparator("", '/');
      assert [""][..0] == [] && ["."][..0] == [];
      assert PushAll(false, ["."]) == Push(false, PushAll(false, []), ".");
      SplitAtSeparator("", '/', "");
      assert "" + ['/'] + "" == SLASH;
      PushAllAfterEmpty(true, [""]);
      PushAllAfterEmpty(true, []);
      assert [""] + [] == [""];
    } else {
      var body := Join(stack, SLASH);
      SplitJoin(stack, '/');
      KeptNotDot(stack);
      if rooted {
        SplitWithoutSeparator("", '/');
        SplitAtSeparator("", '/', body);
        assert "" + ['/'] + body == SLASH + body;
        PushAllAfterEmpty(true, stack);
      }
    }
  }

  /** A cleaned path is clean. */
  lemma CleanIdempotent(p: string)
    ensures Clean(Clean(p)) == Clean(p)
  {
    PushAllWellStacked(Rooted(p), Split(p, '/'));
    KeptOfRendered(Kept(p), Rooted(p));
  }

  // ---------------------------------------------------------------- accepted paths

  /** `validateSourcePath`; `urlOk` says that `url.Parse` succeeds with neither scheme nor host. */
  predicate PathAccepted(urlOk: string -> bool, v: string) {
    && TrimSpace(v) == v
    && (v == "" ||
        (&& urlOk(v) && !Rooted(v) && '\\' !in v
         && var clean := Clean(v);
            !(clean == "." || clean != v || clean == ".." || "../" <= clean)))
  }

  predicate PlainElem(e: string) {
    e != "" && e != "." && e != ".."
  }

  predicate AllPlain(elems: seq<string>) {
    forall i :: 0 <= i < |elems| ==> PlainElem(elems[i])
  }

  lemma {:induction false} PushAllPlain(rooted: bool, elems: seq<string>)
    requires AllPlain(elems)
    ensures PushAll(rooted, elems) == elems
  {
    if elems != [] {
      PushAllPlain(rooted, elems[..|elems| - 1]);
    }
  }

  lemma FirstElem(v: string)
    ensures "../" <= v ==> Split(v, '/')[0] == ".."
    ensures Rooted(v) ==> Split(v, '/')[0] == ""
  {
    if "../" <= v {
      assert v == ".." + ['/'] + v[3..];
      SplitWithoutSeparator("..", '/');
      SplitAtSeparator("..", '/', v[3..]);
    }
  }

  lemma CleanFixpointIsPlain(v: string)
    requires v != "" && !Rooted(v) && Clean(v) == v && v != "." && v != ".." && !("../" <= v)
    ensures AllPlain(Split(v, '/'))
  {
    var stack := Kept(v);
    PushAllWellStacked(false, Split(v, '/'));
    SplitJoin(stack, '/');
    assert Split(v, '/') == stack;
    if stack[0] == ".." { DotDotFirst(stack); }
  }

  lemma DotDotFirst(stack: seq<string>)
    requires stack != [] && stack[0] == ".."
    ensures Join(stack, SLASH) == ".." || "../" <= Join(stack, SLASH)
  {
    if |stack| > 1 {
      assert Join(stack, SLASH)[..3] == "../";
    }
  }

  /**
    A non-empty path is accepted exactly when, besides the surface checks, it is
    a slash-join of elements none of which is empty, `.` or `..`.
   */
  lemma PathAcceptedIff(urlOk: string -> bool, v: string)
    requires v != ""
    ensures PathAccepted(urlOk, v) <==>
            TrimSpace(v) == v && urlOk(v) && '\\' !in v && AllPlain(Split(v, '/'))
  {
    FirstElem(v);
    if AllPlain(Split(v, '/')) {
      assert PlainElem(Split(v, '/')[0]);
      PushAllPlain(false, Split(v, '/'));
      JoinSplit(v, '/');
      SplitWithoutSeparator(".", '/');
      SplitWithoutSeparator("..", '/');
    } else if PathAccepted(urlOk, v) {
      CleanFixpointIsPlain(v);
    }
  }

  // ---------------------------------------------------------------- URL and staged file

  /** `joinURLPath`. */
  function JoinUrlPath(base: string, elem: string): string {
    StripTrailingSlashes(base) + SLASH + StripLeadingSlashes(elem)
  }

  /** `filepath.Join(dir, name)` for a non-empty directory. */
  function JoinPath(dir: string, name: string): string {
    Clean(dir + SLASH + name)
  }

  /** The entry called `name` of a cleaned directory. */
  function Child(dir: string, name: string): string {
    if dir == "." then name else if dir == SLASH then SLASH + name else dir + SLASH + name
  }

  lemma {:induction false} JoinSnoc(parts: seq<string>, last: string)
    requires parts != []
    ensures Join(parts + [last], SLASH) == Join(parts, SLASH) + SLASH + last
  {
    if |parts| == 1 {
      assert (parts + [last])[1..] == [last];
    } else {
      assert (parts + [last])[1..] == parts[1..] + [last];
      JoinSnoc(parts[1..], last);
    }
  }

  lemma KeptNotDot(stack: seq<string>)
    requires stack != [] && WellStacked(stack)
    ensures Join(stack, SLASH) != "." && Join(stack, SLASH) != "" && Join(stack, SLASH)[0] != '/'
  {
    assert stack[0] != "" && stack[0] != "." && '/' !in stack[0];
    if |stack| > 1 {
      assert '/' in Join(stack, SLASH);
    }
  }

  lemma KeptJoined(dir: string, name: string)
    requires dir != "" && '/' !in name
    ensures Kept(dir + SLASH + name) == Push(Rooted(dir), Kept(dir), name) && Rooted(dir + SLASH + name) == Rooted(dir)
  {
    SplitAtSeparator(dir, '/', name);
    SplitWithoutSeparator(name, '/');
    var elems := Split(dir + SLASH + name, '/');
    assert elems == Split(dir, '/') + [name];
    assert elems[..|elems| - 1] == Split(dir, '/');
  }

  /** Joining a plain name to a directory gives a direct child of the cleaned directory. */
  lemma JoinIsChild(dir: string, name: string)
    requires dir != "" && PlainElem(name) && '/' !in name
    ensures JoinPath(dir, name) == Child(Clean(dir), name)
  {
    KeptJoined(dir, name);
    PushAllWellStacked(Rooted(dir), Split(dir, '/'));
    ChildOfStack(Kept(dir), name, Rooted(dir));
  }

  /** The path names an entry of the directory: its elements are the directory's and one plain name. */
  predicate DirectChild(dir: string, path: string) {
    && Rooted(path) == Rooted(dir) && Kept(path) != []
    && Kept(path)[..|Kept(path)| - 1] == Kept(dir) && PlainElem(Kept(path)[|Kept(path)| - 1])
  }

  /** A joined name gives a direct child of the directory exactly when it is a plain name. */
  lemma JoinIsChildIff(dir: string, name: string)
    requires dir != "" && '/' !in name
    ensures DirectChild(dir, JoinPath(dir, name)) <==> PlainElem(name)
    ensures name == "." ==> JoinPath(dir, name) == Clean(dir)
  {
    KeptJoined(dir, name);
    PushAllWellStacked(Rooted(dir), Split(dir + SLASH + name, '/'));
    KeptOfRendered(Kept(dir + SLASH + name), Rooted(dir));
    var stack := Kept(dir);
    assert PlainElem(name) ==> (stack + [name])[..|stack|] == stack;
    assert |stack[..if stack == [] then 0 else |stack| - 1]| <= |stack|;
    assert (stack + [".."])[|stack|] == "..";
  }

  lemma ChildOfStack(stack: seq<string>, name: string, rooted: bool)
    requires WellStacked(stack)
    ensures Rendered(stack + [name], rooted) == Child(Rendered(stack, rooted), name)
  {
    if stack == [] {
      assert stack + [name] == [name] && Join([name], SLASH) == name;
      assert Rendered([], true) == SLASH + "" == SLASH;
    } else {
      var body := Join(stack, SLASH);
      KeptNotDot(stack);
      JoinSnoc(stack, name);
      assert Rendered(stack + [name], false) == body + SLASH + name && SLASH[0] == '/';
      assert Rendered(stack + [name], true) == SLASH + (body + SLASH + name) == SLASH + body + SLASH + name;
      assert (SLASH + body)[0] == '/' && "."[0] == '.' && |SLASH + body| > |SLASH|;
    }
  }

  lemma {:induction false} JoinEnds(parts: seq<string>)
    requires parts != [] && AllPlain(parts) && forall i :: 0 <= i < |parts| ==> '/' !in parts[i]
    ensures Join(parts, SLASH) != "" && Join(parts, SLASH)[|Join(parts, SLASH)| - 1] != '/'
  {
    assert PlainElem(parts[0]);
    if |parts| > 1 {
      JoinEnds(parts[1..]);
    }
  }

  /** The last element of an accepted path is a plain file name. */
  lemma BaseIsPlain(v: string)
    requires v != "" && AllPlain(Split(v, '/'))
    ensures Base(v) == Split(v, '/')[|Split(v, '/')| - 1] && PlainElem(Base(v)) && '/' !in Base(v)
  {
    JoinSplit(v, '/');
    JoinEnds(Split(v, '/'));
  }

  /**
    An accepted path becomes exactly the trimmed base URL, a slash and the path,
    and is staged directly under the staging directory, under its last element.
   */
  lemma AcceptedPathPlaces(urlOk: string -> bool, v: string, baseUrl: string, dir: string)
    requires v != "" && PathAccepted(urlOk, v) && dir != ""
    ensures JoinUrlPath(baseUrl, v) == StripTrailingSlashes(baseUrl) + SLASH + v
    ensures JoinPath(dir, Base(v)) == Child(Clean(dir), Split(v, '/')[|Split(v, '/')| - 1])
  {
    PathAcceptedIff(urlOk, v);
    BaseIsPlain(v);
    JoinIsChild(dir, Base(v));
  }
}
