/** Key listings in the order of Go's `sort.Strings`. */
module Ordering {
  import opened Provider

  /** Code-point order, which is the byte order of the UTF-8 encodings. */
  predicate Below(a: string, b: string) {
    a == [] || (b != [] && (a[0] < b[0] || (a[0] == b[0] && Below(a[1..], b[1..]))))
  }

  lemma {:induction false} BelowTotal(a: string, b: string)
    ensures Below(a, b) || Below(b, a)
  {
    if a != [] && b != [] && a[0] == b[0] { BelowTotal(a[1..], b[1..]); }
  }

  lemma {:induction false} BelowAntisymmetric(a: string, b: string)
    requires Below(a, b) && Below(b, a)
    ensures a == b
  {
    if a != [] && b != [] {
      BelowAntisymmetric(a[1..], b[1..]);
      assert a == [a[0]] + a[1..] && b == [b[0]] + b[1..];
    }
  }

  lemma {:induction false} BelowTransitive(a: string, b: string, c: string)
    requires Below(a, b) && Below(b, c)
    ensures Below(a, c)
  {
    if a != [] && a[0] == b[0] == c[0] { BelowTransitive(a[1..], b[1..], c[1..]); }
  }

  predicate Sorted(s: seq<string>) {
    forall i, j :: 0 <= i < j < |s| ==> Below(s[i], s[j])
  }

  predicate IsLeast(m: string, s: set<string>) {
    m in s && forall x :: x in s ==> Below(m, x)
  }

  lemma LeastExists(s: set<string>) returns (m: string)
    requires s != {}
    ensures IsLeast(m, s)
  {
    m :| m in s;
    var rest := s - {m};
    BelowTotal(m, m);
    while rest != {}
      invariant rest <= s && IsLeast(m, s - rest)
    {
      var x :| x in rest;
      BelowTotal(m, x);
      BelowTotal(x, x);
      if !Below(m, x) {
        forall y | y in s - rest ensures Below(x, y) { BelowTransitive(x, m, y); }
        m := x;
      }
      rest := rest - {x};
    }
    assert s - rest == s;
  }

  lemma OneLeast(s: set<string>)
    requires s != {}
    ensures exists m :: IsLeast(m, s)
    ensures forall x, y :: IsLeast(x, s) && IsLeast(y, s) ==> x == y
  {
    var m := LeastExists(s);
    forall x, y | IsLeast(x, s) && IsLeast(y, s) ensures x == y { BelowAntisymmetric(x, y); }
  }

  function Least(s: set<string>): (m: string)
    requires s != {}
    ensures IsLeast(m, s)
  {
    OneLeast(s);
    var m :| IsLeast(m, s);
    m
  }

  /** The keys of a map, collected and sorted. */
  function SortedKeys(s: set<string>): (keys: seq<string>)
    ensures Sorted(keys) && NoDup(keys)
    ensures forall x :: x in keys <==> x in s
    ensures |keys| == |s|
  {
    if s == {} then []
    else
      var m := Least(s);
      [m] + SortedKeys(s - {m})
  }
}
