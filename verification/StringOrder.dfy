/** Go's order on strings, and sorting by it. Comparing characters agrees with comparing the bytes
    of their UTF-8 encodings. */
module StringOrder {
  import opened Sequences

  predicate Below(a: string, b: string)
    decreases |a|
  {
    if a == "" then true
    else if b == "" then false
    else a[0] < b[0] || (a[0] == b[0] && Below(a[1..], b[1..]))
  }

  lemma {:induction false} BelowReflexive(a: string)
    ensures Below(a, a)
    decreases |a|
  {
    if a != "" {
      BelowReflexive(a[1..]);
    }
  }

  lemma {:induction false} BelowTotal(a: string, b: string)
    ensures Below(a, b) || Below(b, a)
    decreases |a|
  {
    if a != "" && b != "" && a[0] == b[0] {
      BelowTotal(a[1..], b[1..]);
    }
  }

  lemma {:induction false} BelowAntisymmetric(a: string, b: string)
    requires Below(a, b) && Below(b, a)
    ensures a == b
    decreases |a|
  {
    if a != "" {
      BelowAntisymmetric(a[1..], b[1..]);
      assert a == [a[0]] + a[1..] && b == [b[0]] + b[1..];
    }
  }

  lemma {:induction false} BelowTransitive(a: string, b: string, c: string)
    requires Below(a, b) && Below(b, c)
    ensures Below(a, c)
    decreases |a|
  {
    if a != "" && a[0] == b[0] && b[0] == c[0] {
      BelowTransitive(a[1..], b[1..], c[1..]);
    }
  }

  ghost predicate Sorted(s: seq<string>) {
    forall i, j | 0 <= i < j < |s| :: Below(s[i], s[j])
  }

  function Insert(x: string, s: seq<string>): (r: seq<string>)
    requires Sorted(s)
    ensures Sorted(r) && multiset(r) == multiset(s) + multiset{x}
    decreases |s|
  {
    if s == [] then [x]
    else if Below(x, s[0]) then
      InsertFirst(x, s);
      [x] + s
    else
      InsertLater(x, s, Insert(x, s[1..]));
      [s[0]] + Insert(x, s[1..])
  }

  lemma InsertFirst(x: string, s: seq<string>)
    requires Sorted(s) && s != [] && Below(x, s[0])
    ensures Sorted([x] + s)
  {
    forall j | 0 <= j < |s|
      ensures Below(x, s[j])
    {
      if j > 0 {
        BelowTransitive(x, s[0], s[j]);
      }
    }
  }

  lemma InsertLater(x: string, s: seq<string>, t: seq<string>)
    requires Sorted(s) && s != [] && !Below(x, s[0])
    requires Sorted(t) && multiset(t) == multiset(s[1..]) + multiset{x}
    ensures Sorted([s[0]] + t) && multiset([s[0]] + t) == multiset(s) + multiset{x}
  {
    BelowTotal(x, s[0]);
    assert s == [s[0]] + s[1..];
    forall j | 0 <= j < |t|
      ensures Below(s[0], t[j])
    {
      assert t[j] in multiset(t);
      assert t[j] == x || t[j] in s[1..];
    }
  }

  /** sort.Strings */
  function Sort(s: seq<string>): (r: seq<string>)
    ensures Sorted(r) && multiset(r) == multiset(s)
    decreases |s|
  {
    if s == [] then []
    else
      assert s == [s[0]] + s[1..];
      Insert(s[0], Sort(s[1..]))
  }

  /** A sorted list is determined by its elements. */
  lemma {:induction false} SortedUnique(a: seq<string>, b: seq<string>)
    requires Sorted(a) && Sorted(b) && multiset(a) == multiset(b)
    ensures a == b
    decreases |a|
  {
    if a == [] {
      assert |multiset(b)| == 0;
    } else {
      assert a[0] in multiset(b) && |multiset(a)| == |a|;
      assert b != [] && b[0] in multiset(a);
      assert Below(a[0], b[0]) by { HeadIsLeast(a, b[0]); }
      assert Below(b[0], a[0]) by { HeadIsLeast(b, a[0]); }
      BelowAntisymmetric(a[0], b[0]);
      assert a == [a[0]] + a[1..] && b == [b[0]] + b[1..];
      assert multiset(a[1..]) == multiset(a) - multiset{a[0]};
      assert multiset(b[1..]) == multiset(b) - multiset{b[0]};
      SortedUnique(a[1..], b[1..]);
    }
  }

  lemma HeadIsLeast(a: seq<string>, x: string)
    requires Sorted(a) && x in multiset(a)
    ensures a != [] && Below(a[0], x)
  {
    assert x in a;
    BelowReflexive(x);
  }

  ghost predicate Lists(s: seq<string>, keys: set<string>) {
    && Distinct(s)
    && (forall x :: x in s <==> x in keys)
  }

  /** slices.Sorted(maps.Keys(m)) for a map with these keys. */
  ghost function Listing(keys: set<string>): (s: seq<string>)
    ensures Sorted(s) && Lists(s, keys)
  {
    if keys == {} then []
    else
      var x :| x in keys;
      InsertDistinct(x, Listing(keys - {x}));
      Insert(x, Listing(keys - {x}))
  }

  /** There is only one sorted list of the keys. */
  lemma ListingUnique(s: seq<string>, keys: set<string>)
    requires Sorted(s) && Lists(s, keys)
    ensures s == Listing(keys)
  {
    var t := Listing(keys);
    forall x
      ensures multiset(s)[x] == multiset(t)[x]
    {
      CountOfDistinct(s, x);
      CountOfDistinct(t, x);
      assert (x in multiset(s) <==> x in s) && (x in multiset(t) <==> x in t);
    }
    assert multiset(s) == multiset(t);
    SortedUnique(s, t);
  }

  method SortedKeys(keys: set<string>) returns (s: seq<string>)
    ensures s == Listing(keys)
  {
    s := [];
    var rest := keys;
    while rest != {}
      invariant Sorted(s) && rest <= keys && Lists(s, keys - rest)
    {
      var x :| x in rest;
      rest := rest - {x};
      InsertDistinct(x, s);
      s := Insert(x, s);
    }
    ListingUnique(s, keys);
  }

  lemma InsertDistinct(x: string, s: seq<string>)
    requires Sorted(s) && Distinct(s) && x !in s
    ensures Distinct(Insert(x, s)) && forall y :: y in Insert(x, s) <==> y == x || y in s
  {
    var r := Insert(x, s);
    forall y
      ensures y in r <==> y == x || y in s
      ensures multiset(r)[y] <= 1
    {
      CountOfDistinct(s, y);
      assert y in r <==> y in multiset(r);
      assert y in s <==> y in multiset(s);
    }
    SingleCountsDistinct(r);
  }

  lemma {:induction false} CountOfDistinct(s: seq<string>, y: string)
    requires Distinct(s)
    ensures multiset(s)[y] <= 1
    decreases |s|
  {
    if s != [] {
      assert s == [s[0]] + s[1..];
      CountOfDistinct(s[1..], y);
      assert s[0] !in s[1..];
      assert s[0] !in multiset(s[1..]);
    }
  }

  lemma SingleCountsDistinct(s: seq<string>)
    requires forall y :: multiset(s)[y] <= 1
    ensures Distinct(s)
  {
    forall i, j | 0 <= i < j < |s|
      ensures s[i] != s[j]
    {
      assert s == s[..i] + [s[i]] + s[i + 1..j] + [s[j]] + s[j + 1..];
      assert multiset(s) >= multiset{s[i], s[j]};
      assert multiset(s)[s[i]] <= 1;
    }
  }
}
