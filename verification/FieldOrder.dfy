/** Sorting the fields of an insert by name, so that their order does not matter (lib/sqlite-lib-db/sqlite_lib_db.cc). */
module FieldOrder {
  import opened Fields

  /** operator< on strings. */
  predicate Below(a: string, b: string) {
    b != "" && (a == "" || a[0] < b[0] || (a[0] == b[0] && Below(a[1..], b[1..])))
  }

  lemma {:induction false} BelowTotal(a: string, b: string)
    ensures a == b || Below(a, b) || Below(b, a)
    ensures !(Below(a, b) && Below(b, a)) && (a == b ==> !Below(a, b))
  {
    if a != "" && b != "" && a[0] == b[0] {
      BelowTotal(a[1..], b[1..]);
      assert a == [a[0]] + a[1..] && b == [b[0]] + b[1..];
    }
  }

  /** Where the two first differ the smaller character decides, and a string that goes on comes behind one that ends. */
  lemma {:induction false} BelowMeans(a: string, b: string)
    ensures Below(a, b) <==> exists n :: DiffersAt(a, b, n)
  {
    if b == "" {
    } else if a == "" {
      assert DiffersAt(a, b, 0);
    } else if a[0] != b[0] {
      assert a[0] < b[0] ==> DiffersAt(a, b, 0);
    } else {
      BelowMeans(a[1..], b[1..]);
      assert a == [a[0]] + a[1..] && b == [a[0]] + b[1..];
      if n :| DiffersAt(a[1..], b[1..], n) {
        assert a[..n + 1] == [a[0]] + a[1..][..n] && b[..n + 1] == [a[0]] + b[1..][..n];
        assert DiffersAt(a, b, n + 1);
      }
      if n :| DiffersAt(a, b, n) {
        assert a[1..][..n - 1] == a[..n][1..] && b[1..][..n - 1] == b[..n][1..];
        assert DiffersAt(a[1..], b[1..], n - 1);
      }
    }
  }

  predicate DiffersAt(a: string, b: string, n: int) {
    0 <= n <= |a| && n < |b| && a[..n] == b[..n] && (n == |a| || a[n] < b[n])
  }

  lemma {:induction false} BelowTransitive(a: string, b: string, c: string)
    requires Below(a, b) && Below(b, c)
    ensures Below(a, c)
  {
    if a != "" && a[0] == b[0] == c[0] {
      BelowTransitive(a[1..], b[1..], c[1..]);
    }
  }

  predicate Sorted(fields: seq<Field>) {
    forall i, j :: 0 <= i < j < |fields| ==> !Below(fields[j].0, fields[i].0)
  }

  predicate DistinctNames(fields: seq<Field>) {
    forall i, j :: 0 <= i < j < |fields| ==> fields[i].0 != fields[j].0
  }

  lemma NotBelowTransitive(a: string, b: string, c: string)
    requires !Below(b, a) && !Below(c, b)
    ensures !Below(c, a)
  {
    BelowTotal(a, b);
    BelowTotal(b, c);
    if Below(a, b) && Below(b, c) {
      BelowTransitive(a, b, c);
    }
    BelowTotal(a, c);
  }

  function Insert(f: Field, fields: seq<Field>): (r: seq<Field>)
    requires Sorted(fields)
    ensures Sorted(r) && multiset(r) == multiset([f] + fields)
  {
    if fields == [] then [f]
    else if !Below(fields[0].0, f.0) then
      Front(f, fields);
      [f] + fields
    else
      var rest := Insert(f, fields[1..]);
      Behind(f, fields, rest);
      [fields[0]] + rest
  }

  lemma Front(f: Field, fields: seq<Field>)
    requires Sorted(fields) && fields != [] && !Below(fields[0].0, f.0)
    ensures Sorted([f] + fields)
  {
    forall j | 0 < j < |fields|
      ensures !Below(fields[j].0, f.0)
    {
      NotBelowTransitive(f.0, fields[0].0, fields[j].0);
    }
  }

  lemma Behind(f: Field, fields: seq<Field>, rest: seq<Field>)
    requires Sorted(fields) && fields != [] && Below(fields[0].0, f.0)
    requires Sorted(rest) && multiset(rest) == multiset([f] + fields[1..])
    ensures Sorted([fields[0]] + rest) && multiset([fields[0]] + rest) == multiset([f] + fields)
  {
    BelowTotal(fields[0].0, f.0);
    forall j | 0 <= j < |rest|
      ensures !Below(rest[j].0, fields[0].0)
    {
      assert rest[j] in multiset(rest);
      if rest[j] != f {
        assert rest[j] in fields[1..];
      }
    }
    assert fields == [fields[0]] + fields[1..];
  }

  /** One sorted arrangement; which one std::sort picks matters only where two fields share a name. */
  function Sort(fields: seq<Field>): (r: seq<Field>)
    ensures Sorted(r) && multiset(r) == multiset(fields)
  {
    if fields == [] then []
    else
      assert fields == [fields[0]] + fields[1..];
      Insert(fields[0], Sort(fields[1..]))
  }

  lemma SameNamesDistinct(a: seq<Field>, b: seq<Field>)
    requires DistinctNames(a) && multiset(a) == multiset(b)
    ensures DistinctNames(b)
  {
    forall i, j | 0 <= i < j < |b|
      ensures b[i].0 != b[j].0
    {
      NotAlike(a, b, i, j);
    }
  }

  /** Two entries of `b` with one name would be two entries of `a` with that name, or one entry twice. */
  lemma NotAlike(a: seq<Field>, b: seq<Field>, i: nat, j: nat)
    requires DistinctNames(a) && multiset(a) == multiset(b) && i < j < |b|
    ensures b[i].0 != b[j].0
  {
    assert b[i] in multiset(a) && b[j] in multiset(a);
    var x :| 0 <= x < |a| && a[x] == b[i];
    var y :| 0 <= y < |a| && a[y] == b[j];
    OnceOnly(a, x);
    if b[i] == b[j] {
      Twice(b, i, j);
    }
  }

  lemma Twice(b: seq<Field>, i: nat, j: nat)
    requires i < j < |b| && b[i] == b[j]
    ensures multiset(b)[b[i]] >= 2
  {
    assert b == b[..i] + [b[i]] + b[i + 1..j] + [b[j]] + b[j + 1..];
  }

  lemma OnceOnly(a: seq<Field>, x: nat)
    requires DistinctNames(a) && x < |a|
    ensures multiset(a)[a[x]] == 1
  {
    assert a == a[..x] + [a[x]] + a[x + 1..];
    assert a[x] !in a[..x] && a[x] !in a[x + 1..];
  }

  /** With distinct names a sorted arrangement is unique, so every way of sorting gives the same one. */
  lemma {:induction false} SortedUnique(a: seq<Field>, b: seq<Field>)
    requires Sorted(a) && Sorted(b) && DistinctNames(a) && multiset(a) == multiset(b)
    ensures a == b
  {
    if a == [] {
      assert |multiset(b)| == 0;
    } else {
      assert |b| == |multiset(b)| == |multiset(a)|;
      SameNamesDistinct(a, b);
      SameFirst(a, b);
      SameRest(a, b);
      SortedUnique(a[1..], b[1..]);
      assert a == [a[0]] + a[1..] && b == [b[0]] + b[1..];
    }
  }

  lemma SameRest(a: seq<Field>, b: seq<Field>)
    requires a != [] && b != [] && a[0] == b[0] && multiset(a) == multiset(b)
    ensures multiset(a[1..]) == multiset(b[1..])
  {
    assert a == [a[0]] + a[1..] && b == [b[0]] + b[1..];
    assert multiset(a[1..]) == multiset(a) - multiset{a[0]};
    assert multiset(b[1..]) == multiset(b) - multiset{b[0]};
  }

  lemma SameFirst(a: seq<Field>, b: seq<Field>)
    requires Sorted(a) && Sorted(b) && DistinctNames(a) && DistinctNames(b) && multiset(a) == multiset(b)
    requires a != [] && b != []
    ensures a[0] == b[0]
  {
    assert a[0] in multiset(b) && b[0] in multiset(a);
    var i :| 0 <= i < |b| && b[i] == a[0];
    var j :| 0 <= j < |a| && a[j] == b[0];
    if i > 0 && j > 0 {
      BelowTotal(a[0].0, b[0].0);
    }
  }

  /** Every order of the same distinctly named fields is sorted into the same list. */
  lemma OrderIrrelevant(a: seq<Field>, b: seq<Field>)
    requires DistinctNames(a) && multiset(a) == multiset(b)
    ensures Sort(a) == Sort(b)
  {
    SameNamesDistinct(a, Sort(a));
    SortedUnique(Sort(a), Sort(b));
  }
}
