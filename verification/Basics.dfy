/** What every other module may need. */
module Basics {

  datatype Option<+T> = None | Some(value: T)

  lemma Regroup<T>(a: seq<T>, b: seq<T>, c: seq<T>)
    ensures a + (b + c) == a + b + c
  {
  }

  /** s with every x taken out. */
  function Without<T(==)>(s: seq<T>, x: T): seq<T> {
    if s == [] then []
    else if s[0] == x then Without(s[1..], x)
    else [s[0]] + Without(s[1..], x)
  }

  lemma {:induction false} WithoutGone<T>(s: seq<T>, x: T)
    ensures x !in Without(s, x)
    ensures forall y :: y != x ==> (y in Without(s, x) <==> y in s)
    ensures x !in s ==> Without(s, x) == s
  {
    if s != [] {
      WithoutGone(s[1..], x);
      assert s == [s[0]] + s[1..];
    }
  }

  /** Every x becomes r. */
  function Replace<T(==)>(s: seq<T>, x: T, r: seq<T>): seq<T> {
    if s == [] then [] else (if s[0] == x then r else [s[0]]) + Replace(s[1..], x, r)
  }

  lemma {:induction false} ReplaceAppend<T>(a: seq<T>, b: seq<T>, x: T, r: seq<T>)
    ensures Replace(a + b, x, r) == Replace(a, x, r) + Replace(b, x, r)
  {
    if a == [] {
      assert a + b == b;
    } else {
      var head := if a[0] == x then r else [a[0]];
      ReplaceAppend(a[1..], b, x, r);
      assert (a + b)[0] == a[0] && (a + b)[1..] == a[1..] + b;
      Regroup(head, Replace(a[1..], x, r), Replace(b, x, r));
    }
  }

  /** a with those elements of b behind it that it lacks, each once. */
  function Union<T(==,!new)>(a: seq<T>, b: seq<T>): (r: seq<T>)
    ensures forall x :: x in r <==> x in a || x in b
    ensures a <= r && (Distinct(a) ==> Distinct(r))
    decreases |b|
  {
    if b == [] then a
    else
      var r := Union(a, b[..|b| - 1]);
      if b[|b| - 1] in r then r else r + [b[|b| - 1]]
  }

  predicate Distinct<T(==)>(s: seq<T>) { forall i, j :: 0 <= i < j < |s| ==> s[i] != s[j] }

  /** The elements of a stand in b in the same order. */
  predicate Within<T(==)>(a: seq<T>, b: seq<T>) {
    a == [] || (b != [] && (Within(a, b[1..]) || (a[0] == b[0] && Within(a[1..], b[1..]))))
  }

  lemma {:induction false} WithinSnoc<T>(a: seq<T>, b: seq<T>, x: T)
    requires Within(a, b)
    ensures Within(a, b + [x]) && Within(a + [x], b + [x])
  {
    if b == [] {
      assert a + [x] == [x] && b + [x] == [x];
    } else {
      assert (b + [x])[1..] == b[1..] + [x];
      if Within(a, b[1..]) {
        WithinSnoc(a, b[1..], x);
      } else {
        assert (a + [x])[1..] == a[1..] + [x];
        WithinSnoc(a[1..], b[1..], x);
      }
    }
  }

  method Merge<T(==,!new)>(a: seq<T>, b: seq<T>) returns (r: seq<T>)
    ensures r == Union(a, b)
  {
    r := a;
    for i := 0 to |b|
      invariant r == Union(a, b[..i])
    {
      assert b[..i + 1][..i] == b[..i];
      if b[i] !in r {
        r := r + [b[i]];
      }
    }
    assert b[..|b|] == b;
  }
}
