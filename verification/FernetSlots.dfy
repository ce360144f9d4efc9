/** The Fernet key entries FernetKeys0, FernetKeys1, ... of the secret's data, and the two
    shifting passes that ensureFernetKeys runs over them in place. */
module FernetSlots {
  import opened Wrappers
  import Decimal

  /** The bytes of one entry. Go reads a missing entry as nil; the n-th generated key is Generated(n). */
  datatype Value = Nil | Generated(serial: nat) | Bytes(content: string)

  type Data = map<string, Value>

  function KeyName(i: nat): string {
    "FernetKeys" + Decimal.Itoa(i)
  }

  lemma KeyNameInjective(i: nat, j: nat)
    requires KeyName(i) == KeyName(j)
    ensures i == j
  {
    assert KeyName(i)[10..] == Decimal.Itoa(i) && KeyName(j)[10..] == Decimal.Itoa(j);
    Decimal.ItoaInjective(i, j);
  }

  /** Go's d[KeyName(i)], which yields nil when the entry is missing. */
  function Lookup(d: Data, i: nat): Value {
    if KeyName(i) in d then d[KeyName(i)] else Nil
  }

  function At(d: Data, i: nat): Option<Value> {
    if KeyName(i) in d then Some(d[KeyName(i)]) else None
  }

  ghost predicate IsSlot(k: string) {
    exists i: nat :: k == KeyName(i)
  }

  /** Every entry that is not a Fernet key is the same in both. */
  ghost predicate SameElsewhere(a: Data, b: Data) {
    forall k: string :: !IsSlot(k) ==> (k in a <==> k in b) && (k in a ==> a[k] == b[k])
  }

  lemma Put(d: Data, i: nat, v: Value)
    ensures forall j: nat :: At(d[KeyName(i) := v], j) == if j == i then Some(v) else At(d, j)
    ensures SameElsewhere(d, d[KeyName(i) := v])
  {
    forall j: nat
      ensures At(d[KeyName(i) := v], j) == if j == i then Some(v) else At(d, j)
    {
      if KeyName(j) == KeyName(i) {
        KeyNameInjective(i, j);
      }
    }
  }

  lemma Drop(d: Data, i: nat)
    ensures forall j: nat :: At(d - {KeyName(i)}, j) == if j == i then None else At(d, j)
    ensures SameElsewhere(d, d - {KeyName(i)})
  {
    forall j: nat
      ensures At(d - {KeyName(i)}, j) == if j == i then None else At(d, j)
    {
      if KeyName(j) == KeyName(i) {
        KeyNameInjective(i, j);
      }
    }
  }

  /** The Fernet entries of index i and above: the measure of an upward scan from i. */
  ghost function From(d: Data, i: nat): set<string> {
    set k | k in d && exists j: nat :: i <= j && k == KeyName(j)
  }

  lemma FromShrinks(a: Data, b: Data, i: nat, lo: nat, gone: nat)
    requires lo <= i <= gone && At(a, gone).Some? && At(b, gone).None?
    requires forall j: nat :: i <= j && j != gone ==> At(b, j) == At(a, j)
    ensures From(b, i) < From(a, lo)
  {
    assert KeyName(gone) in From(a, lo);
    forall k | k in From(b, i)
      ensures k in From(a, lo) && k != KeyName(gone)
    {
      var j: nat :| i <= j && k == KeyName(j);
      assert At(b, j).Some?;
      assert At(a, j).Some?;
    }
  }

  /** From i upward the entries are filled exactly up to the first gap g. */
  ghost predicate GapAt(d: Data, i: nat, g: nat) {
    && i <= g
    && (forall j: nat :: i <= j < g ==> At(d, j).Some?)
    && At(d, g).None?
  }

  lemma {:induction false} GapExists(d: Data, i: nat) returns (g: nat)
    ensures GapAt(d, i, g)
    decreases From(d, i)
  {
    if At(d, i).None? {
      g := i;
    } else {
      assert From(d, i + 1) < From(d, i) by {
        Drop(d, i);
        FromShrinks(d, d - {KeyName(i)}, i, i, i);
        forall k | k in From(d, i + 1)
          ensures k in From(d - {KeyName(i)}, i)
        {
          var j: nat :| i + 1 <= j && k == KeyName(j);
          if k == KeyName(i) {
            KeyNameInjective(i, j);
          }
        }
      }
      g := GapExists(d, i + 1);
    }
  }

  /** The data after one step of the inner removal loop: entry i+1 moves down to i. */
  function MoveDown(d: Data, i: nat): Data
    requires KeyName(i + 1) in d
  {
    d[KeyName(i) := d[KeyName(i + 1)]] - {KeyName(i + 1)}
  }

  lemma MoveDownAt(d: Data, i: nat)
    requires KeyName(i + 1) in d
    ensures forall j: nat :: At(MoveDown(d, i), j) ==
                             if j == i then At(d, i + 1) else if j == i + 1 then None else At(d, j)
    ensures SameElsewhere(d, MoveDown(d, i))
    ensures From(MoveDown(d, i), i + 2) <= From(MoveDown(d, i), i + 1) < From(d, i + 1)
  {
    var v := d[KeyName(i + 1)];
    Put(d, i, v);
    Drop(d[KeyName(i) := v], i + 1);
    FromShrinks(d, MoveDown(d, i), i + 1, i + 1, i + 1);
  }

  /** The inner removal loop entered at index i: keystoneapi_controller.go:1918-1928. */
  ghost function ShiftDown(d: Data, i: nat): Data
    decreases From(d, i + 1)
  {
    if KeyName(i + 1) !in d then d
    else
      MoveDownAt(d, i);
      ShiftDown(MoveDown(d, i), i + 1)
  }

  /** What one pass of the removal loop, entered at i and stopped by the gap at g, leaves at j. */
  ghost function DownAt(d: Data, i: nat, g: nat, j: nat): Option<Value> {
    if i <= j < g - 1 then At(d, j + 1) else if i < j == g - 1 then None else At(d, j)
  }

  /** One pass of the inner removal loop moves the run above i down by one index and
      leaves everything else alone. With no entry at i+1 it is the identity. */
  lemma {:induction false} ShiftDownAt(d: Data, i: nat, g: nat)
    requires GapAt(d, i + 1, g)
    ensures forall j: nat :: At(ShiftDown(d, i), j) == DownAt(d, i, g, j)
    ensures SameElsewhere(d, ShiftDown(d, i))
    decreases g - i
  {
    if g == i + 1 {
      assert At(d, i + 1).None?;
    } else {
      assert At(d, i + 1).Some?;
      MoveDownAt(d, i);
      var e := MoveDown(d, i);
      assert GapAt(e, i + 2, g);
      ShiftDownAt(e, i + 1, g);
      assert ShiftDown(d, i) == ShiftDown(e, i + 1);
      forall j: nat
        ensures DownAt(e, i + 1, g, j) == DownAt(d, i, g, j)
      {
      }
    }
  }

  /** The data after one step of the inner insertion loop. */
  function PutCarried(d: Data, i: nat, carried: Value): Data {
    d[KeyName(i) := carried]
  }

  lemma PutCarriedAt(d: Data, i: nat, carried: Value)
    ensures forall j: nat :: At(PutCarried(d, i, carried), j) == if j == i then Some(carried) else At(d, j)
    ensures SameElsewhere(d, PutCarried(d, i, carried))
    ensures KeyName(i) in d ==> From(PutCarried(d, i, carried), i + 1) < From(d, i)
  {
    Put(d, i, carried);
    if KeyName(i) in d {
      var e := PutCarried(d, i, carried);
      assert KeyName(i) in From(d, i);
      forall k | k in From(e, i + 1)
        ensures k in From(d, i) && k != KeyName(i)
      {
        var j: nat :| i + 1 <= j && k == KeyName(j);
        assert At(e, j).Some?;
        if k == KeyName(i) {
          KeyNameInjective(i, j);
        }
      }
    }
  }

  /** The inner insertion loop entered at index i: keystoneapi_controller.go:1947-1956. */
  ghost function ShiftUp(d: Data, i: nat, carried: Value): Data
    decreases From(d, i)
  {
    if KeyName(i) !in d then PutCarried(d, i, carried)
    else
      PutCarriedAt(d, i, carried);
      ShiftUp(PutCarried(d, i, carried), i + 1, d[KeyName(i)])
  }

  /** What one pass of the insertion loop, entered at i and stopped by the gap at g, leaves at j. */
  ghost function UpAt(d: Data, i: nat, carried: Value, g: nat, j: nat): Option<Value> {
    if j == i then Some(carried) else if i < j <= g then At(d, j - 1) else At(d, j)
  }

  /** One pass of the inner insertion loop puts the carried value at i and moves the run
      from i up by one index, filling the first gap. */
  lemma {:induction false} ShiftUpAt(d: Data, i: nat, carried: Value, g: nat)
    requires GapAt(d, i, g)
    ensures forall j: nat :: At(ShiftUp(d, i, carried), j) == UpAt(d, i, carried, g, j)
    ensures SameElsewhere(d, ShiftUp(d, i, carried))
    decreases g - i
  {
    PutCarriedAt(d, i, carried);
    if g == i {
      assert At(d, i).None?;
    } else {
      assert At(d, i).Some?;
      var e := PutCarried(d, i, carried);
      assert GapAt(e, i + 1, g);
      ShiftUpAt(e, i + 1, d[KeyName(i)], g);
      assert ShiftUp(d, i, carried) == ShiftUp(e, i + 1, d[KeyName(i)]);
      forall j: nat
        ensures UpAt(e, i + 1, d[KeyName(i)], g, j) == UpAt(d, i, carried, g, j)
      {
      }
    }
  }
}
