/**
 The address processor of the order CSV export. It turns the addresses of an
 order, grouped by address type, into one CSV line per address: the groups are
 visited in descending key order (`krsort`), and each line holds exactly the
 mapping's positions, in ascending order (`ksort`), filled with the address
 field the position maps to, or with the empty string.
 */
module AddressExport {
  import Ordering

  /** An address as its full field list (`toArray(true)`): field name to value. */
  type Fields = map<string, string>

  /** The export mapping: CSV position to field name. */
  type Mapping = map<int, string>

  /** One entry of an exported line: CSV position and value. */
  datatype Cell = Cell(pos: int, value: string)

  /** One exported line, in the order of its entries. */
  type Line = seq<Cell>

  /* ---------------------------------------------------------------- */
  /* Key orders                                                        */
  /* ---------------------------------------------------------------- */

  /** Byte-wise (here: character-wise) string comparison, as PHP compares non-numeric string keys. */
  predicate StrLess(a: string, b: string)
    decreases |a|
  {
    if |a| == 0 then |b| > 0
    else if |b| == 0 then false
    else if a[0] != b[0] then a[0] < b[0]
    else StrLess(a[1..], b[1..])
  }

  /** The order `krsort` puts string keys in. */
  predicate StrGreater(a: string, b: string) {
    StrLess(b, a)
  }

  /** The order `ksort` puts integer keys in. */
  predicate IntLess(a: int, b: int) {
    a < b
  }

  lemma {:induction false} StrLessIrreflexive(a: string)
    ensures !StrLess(a, a)
    decreases |a|
  {
    if |a| > 0 {
      StrLessIrreflexive(a[1..]);
    }
  }

  lemma {:induction false} StrLessTransitive(a: string, b: string, c: string)
    requires StrLess(a, b) && StrLess(b, c)
    ensures StrLess(a, c)
    decreases |a|
  {
    if |a| > 0 && a[0] == b[0] && b[0] == c[0] {
      StrLessTransitive(a[1..], b[1..], c[1..]);
    }
  }

  lemma {:induction false} StrLessConnected(a: string, b: string)
    requires a != b
    ensures StrLess(a, b) || StrLess(b, a)
    decreases |a|
  {
    if |a| > 0 && |b| > 0 && a[0] == b[0] {
      assert a == [a[0]] + a[1..] && b == [b[0]] + b[1..];
      StrLessConnected(a[1..], b[1..]);
    }
  }

  /** Descending string order is a strict total order. */
  lemma StrGreaterOrder()
    ensures Ordering.StrictTotalOrder(StrGreater)
  {
    forall a
      ensures !StrGreater(a, a)
    {
      StrLessIrreflexive(a);
    }
    forall a, b, c | StrGreater(a, b) && StrGreater(b, c)
      ensures StrGreater(a, c)
    {
      StrLessTransitive(c, b, a);
    }
    forall a, b | a != b
      ensures StrGreater(a, b) || StrGreater(b, a)
    {
      StrLessConnected(a, b);
    }
  }

  lemma IntLessOrder()
    ensures Ordering.StrictTotalOrder(IntLess)
  {
  }

  /** The mapping's positions in ascending order (`ksort`). */
  function Positions(mapping: Mapping): (ps: seq<int>)
    ensures |ps| == |mapping|
    ensures forall p :: p in ps <==> p in mapping
    ensures forall i, j :: 0 <= i < j < |ps| ==> ps[i] < ps[j]
  {
    IntLessOrder();
    Ordering.Enumerate(mapping.Keys, IntLess)
  }

  /** The address types in descending order (`krsort`). */
  function GroupOrder(groups: map<string, seq<Fields>>): (ks: seq<string>)
    ensures |ks| == |groups|
    ensures forall k :: k in ks <==> k in groups
  {
    StrGreaterOrder();
    Ordering.Enumerate(groups.Keys, StrGreater)
  }

  /** `GroupOrder` lists the address types in strictly descending order. */
  lemma GroupOrderDescending(groups: map<string, seq<Fields>>)
    ensures forall i, j :: 0 <= i < j < |GroupOrder(groups)| ==> StrLess(GroupOrder(groups)[j], GroupOrder(groups)[i])
  {
    StrGreaterOrder();
  }

  /** Any strictly descending listing of the address types is the one `GroupOrder` gives. */
  lemma GroupOrderUnique(groups: map<string, seq<Fields>>, ks: seq<string>)
    requires forall k :: k in ks <==> k in groups
    requires forall i, j :: 0 <= i < j < |ks| ==> StrLess(ks[j], ks[i])
    ensures ks == GroupOrder(groups)
  {
    StrGreaterOrder();
    var order := GroupOrder(groups);
    GroupOrderDescending(groups);
    assert forall i, j :: 0 <= i < j < |order| ==> StrGreater(order[i], order[j]);
    assert forall i, j :: 0 <= i < j < |ks| ==> StrGreater(ks[i], ks[j]);
    Ordering.EnumerationUnique(groups.Keys, StrGreater, ks, order);
  }

  /* ---------------------------------------------------------------- */
  /* Lines                                                             */
  /* ---------------------------------------------------------------- */

  /** A line holds each mapping position exactly once, in ascending order, and nothing else. */
  ghost predicate Exact(line: Line, mapping: Mapping) {
    && (forall i :: 0 <= i < |line| ==> line[i].pos in mapping)
    && (forall p :: p in mapping ==> exists i :: 0 <= i < |line| && line[i].pos == p)
    && (forall i, j :: 0 <= i < j < |line| ==> line[i].pos < line[j].pos)
  }

  /** The value a position gets: the mapped field when the address has it, else the empty string. */
  function CellValue(fields: Fields, key: string): string {
    if key in fields then fields[key] else ""
  }

  /** The cells for positions `ps`, each filled from `fields` through the mapping. */
  function Cells(ps: seq<int>, fields: Fields, mapping: Mapping): (line: Line)
    requires forall i :: 0 <= i < |ps| ==> ps[i] in mapping
    ensures |line| == |ps|
    ensures forall i :: 0 <= i < |ps| ==> line[i].pos == ps[i]
    ensures forall i :: 0 <= i < |ps| ==> line[i].value == CellValue(fields, mapping[ps[i]])
  {
    seq(|ps|, i requires 0 <= i < |ps| => Cell(ps[i], CellValue(fields, mapping[ps[i]])))
  }

  /** A line whose positions are the ascending positions of the mapping is exact. */
  lemma CellsExact(ps: seq<int>, line: Line, mapping: Mapping)
    requires forall p :: p in ps <==> p in mapping
    requires forall i, j :: 0 <= i < j < |ps| ==> ps[i] < ps[j]
    requires |line| == |ps| && forall i :: 0 <= i < |ps| ==> line[i].pos == ps[i]
    ensures Exact(line, mapping)
  {
    forall p | p in mapping
      ensures exists i :: 0 <= i < |line| && line[i].pos == p
    {
      var i :| 0 <= i < |ps| && ps[i] == p;
      assert line[i].pos == p;
    }
  }

  /** The line of one address. */
  function LineOf(fields: Fields, mapping: Mapping): (line: Line)
    ensures |line| == |mapping|
  {
    Cells(Positions(mapping), fields, mapping)
  }

  /** The line of an address holds each mapped position once, in ascending order. */
  lemma LineExact(fields: Fields, mapping: Mapping)
    ensures Exact(LineOf(fields, mapping), mapping)
  {
    CellsExact(Positions(mapping), LineOf(fields, mapping), mapping);
  }

  /**
   Every mapped position appears in the line, holding the address's field of
   that name when the address has it and the empty string when it has not.
   */
  lemma LineValues(fields: Fields, mapping: Mapping, p: int)
    requires p in mapping
    ensures var line := LineOf(fields, mapping);
            && (exists i :: 0 <= i < |line| && line[i].pos == p)
            && (forall i :: 0 <= i < |line| && line[i].pos == p ==> line[i].value == CellValue(fields, mapping[p]))
  {
    var ps := Positions(mapping);
    var line := Cells(ps, fields, mapping);
    assert line == LineOf(fields, mapping);
    var i :| 0 <= i < |ps| && ps[i] == p;
    assert line[i].pos == p;
  }

  /** The number of addresses in the groups listed by `order`. */
  function SumSizes(order: seq<string>, groups: map<string, seq<Fields>>): nat
    requires forall k :: k in order ==> k in groups
    decreases |order|
  {
    if |order| == 0 then 0 else |groups[order[0]]| + SumSizes(order[1..], groups)
  }

  /** The number of addresses in the groups named by `keys`. */
  ghost function CountOver(keys: set<string>, groups: map<string, seq<Fields>>): nat
    requires keys <= groups.Keys
    decreases keys
  {
    if keys == {} then 0
    else
      var k :| k in keys;
      |groups[k]| + CountOver(keys - {k}, groups)
  }

  /** The number of addresses in all groups. */
  ghost function AddressCount(groups: map<string, seq<Fields>>): nat {
    CountOver(groups.Keys, groups)
  }

  /** `CountOver` can take out any group first. */
  lemma {:induction false} CountOverRemove(keys: set<string>, groups: map<string, seq<Fields>>, k: string)
    requires keys <= groups.Keys && k in keys
    ensures CountOver(keys, groups) == |groups[k]| + CountOver(keys - {k}, groups)
    decreases keys
  {
    var k' :| k' in keys && CountOver(keys, groups) == |groups[k']| + CountOver(keys - {k'}, groups);
    if k' != k {
      CountOverRemove(keys - {k'}, groups, k);
      CountOverRemove(keys - {k}, groups, k');
      assert keys - {k'} - {k} == keys - {k} - {k'};
    }
  }

  /** Summing over any listing of a set of groups, each once, counts their addresses. */
  lemma {:induction false} SumSizesCounts(order: seq<string>, keys: set<string>, groups: map<string, seq<Fields>>)
    requires keys <= groups.Keys
    requires forall k :: k in order <==> k in keys
    requires forall i, j :: 0 <= i < j < |order| ==> order[i] != order[j]
    ensures SumSizes(order, groups) == CountOver(keys, groups)
    decreases |order|
  {
    if |order| == 0 {
      assert keys == {};
    } else {
      var k := order[0];
      var rest := keys - {k};
      forall x
        ensures x in order[1..] <==> x in rest
      {
        if x in order[1..] {
          var i :| 1 <= i < |order| && order[i] == x;
          assert order[0] != order[i];
        }
        if x in rest {
          var i :| 0 <= i < |order| && order[i] == x;
          assert order[1..][i - 1] == x;
        }
      }
      SumSizesCounts(order[1..], rest, groups);
      CountOverRemove(keys, groups, k);
    }
  }

  /** Where the lines of group `g` of `order` start. */
  function Offset(order: seq<string>, groups: map<string, seq<Fields>>, g: nat): nat
    requires g <= |order|
    requires forall k :: k in order ==> k in groups
  {
    SumSizes(order[..g], groups)
  }

  /** The addresses of the groups listed by `order`, group after group. */
  function Flatten(order: seq<string>, groups: map<string, seq<Fields>>): (items: seq<Fields>)
    requires forall k :: k in order ==> k in groups
    ensures |items| == SumSizes(order, groups)
    decreases |order|
  {
    if |order| == 0 then [] else groups[order[0]] + Flatten(order[1..], groups)
  }

  /** The offset of a later group, counted from the second group on. */
  lemma OffsetStep(order: seq<string>, groups: map<string, seq<Fields>>, g: nat)
    requires forall k :: k in order ==> k in groups
    requires 0 < g <= |order|
    ensures Offset(order, groups, g) == |groups[order[0]]| + Offset(order[1..], groups, g - 1)
  {
    assert order[..g][1..] == order[1..][..g - 1];
  }

  /** Item `j` of group `g` of `order` is address `Offset(order, groups, g) + j`. */
  lemma {:induction false} FlattenPlaces(order: seq<string>, groups: map<string, seq<Fields>>, g: nat, j: nat)
    requires forall k :: k in order ==> k in groups
    requires g < |order| && j < |groups[order[g]]|
    ensures Offset(order, groups, g) + j < |Flatten(order, groups)|
    ensures Flatten(order, groups)[Offset(order, groups, g) + j] == groups[order[g]][j]
    decreases g
  {
    var head := groups[order[0]];
    var tail := Flatten(order[1..], groups);
    assert Flatten(order, groups) == head + tail;
    if g == 0 {
      assert order[..0] == [];
      assert Offset(order, groups, 0) == 0;
    } else {
      FlattenPlaces(order[1..], groups, g - 1, j);
      OffsetStep(order, groups, g);
      assert order[1..][g - 1] == order[g];
    }
  }

  /** The addresses of an order in export order: groups by descending key. */
  function Addresses(groups: map<string, seq<Fields>>): (items: seq<Fields>)
    ensures |items| == AddressCount(groups)
  {
    var order := GroupOrder(groups);
    GroupOrderDescending(groups);
    forall i, j | 0 <= i < j < |order|
      ensures order[i] != order[j]
    {
      StrLessIrreflexive(order[i]);
    }
    SumSizesCounts(order, groups.Keys, groups);
    Flatten(order, groups)
  }

  /**
   `process`: one line per address, groups in descending key order, each line
   holding exactly the mapping's positions in ascending order.
   */
  function Process(groups: map<string, seq<Fields>>, mapping: Mapping): (lines: seq<Line>)
    ensures |lines| == AddressCount(groups)
    ensures groups == map[] ==> lines == []
  {
    var items := Addresses(groups);
    seq(|items|, n requires 0 <= n < |items| => LineOf(items[n], mapping))
  }

  /** Every exported line holds each mapped position once, in ascending order. */
  lemma ProcessExact(groups: map<string, seq<Fields>>, mapping: Mapping)
    ensures forall n :: 0 <= n < |Process(groups, mapping)| ==> Exact(Process(groups, mapping)[n], mapping)
  {
    var items := Addresses(groups);
    forall n | 0 <= n < |items|
      ensures Exact(Process(groups, mapping)[n], mapping)
    {
      LineExact(items[n], mapping);
    }
  }

  /**
   Order: with the groups listed in descending key order, address `j` of group
   `g` is address `Offset + j` of the export.
   */
  lemma AddressesPlaces(groups: map<string, seq<Fields>>, g: nat, j: nat)
    requires g < |GroupOrder(groups)| && j < |groups[GroupOrder(groups)[g]]|
    ensures Offset(GroupOrder(groups), groups, g) + j < |Addresses(groups)|
    ensures Addresses(groups)[Offset(GroupOrder(groups), groups, g) + j] == groups[GroupOrder(groups)[g]][j]
  {
    AddressesFlatten(groups);
    FlattenPlaces(GroupOrder(groups), groups, g, j);
  }

  lemma AddressesFlatten(groups: map<string, seq<Fields>>)
    ensures Addresses(groups) == Flatten(GroupOrder(groups), groups)
  {
  }

  /** Line `n` of the export is the line of address `n` in export order. */
  lemma ProcessAt(groups: map<string, seq<Fields>>, mapping: Mapping, n: nat)
    requires n < |Addresses(groups)|
    ensures |Process(groups, mapping)| == |Addresses(groups)|
    ensures Process(groups, mapping)[n] == LineOf(Addresses(groups)[n], mapping)
  {
  }

  /**
   The cells of the export: address `j` of the `g`-th visited group is line
   `Offset + j`, and at each mapped position that line holds the address's
   field of the mapped name, or the empty string when the address lacks it.
   */
  lemma ProcessCell(groups: map<string, seq<Fields>>, mapping: Mapping, g: nat, j: nat, p: int)
    requires g < |GroupOrder(groups)| && j < |groups[GroupOrder(groups)[g]]|
    requires p in mapping
    ensures var n := Offset(GroupOrder(groups), groups, g) + j;
            var address := groups[GroupOrder(groups)[g]][j];
            var lines := Process(groups, mapping);
            (&& n < |lines|
             && (exists i :: 0 <= i < |lines[n]| && lines[n][i].pos == p)
             && forall i :: 0 <= i < |lines[n]| && lines[n][i].pos == p ==>
                  lines[n][i].value == CellValue(address, mapping[p]))
  {
    var n := Offset(GroupOrder(groups), groups, g) + j;
    var address := groups[GroupOrder(groups)[g]][j];
    AddressesPlaces(groups, g, j);
    ProcessAt(groups, mapping, n);
    LineValues(address, mapping, p);
  }

  /** Groups that come earlier in the export order have greater keys, and their lines come first. */
  lemma ProcessGroupsDescending(groups: map<string, seq<Fields>>, mapping: Mapping, g: nat, h: nat)
    requires g < h < |GroupOrder(groups)|
    ensures StrLess(GroupOrder(groups)[h], GroupOrder(groups)[g])
    ensures Offset(GroupOrder(groups), groups, g) + |groups[GroupOrder(groups)[g]]|
         <= Offset(GroupOrder(groups), groups, h)
  {
    var order := GroupOrder(groups);
    GroupOrderDescending(groups);
    SumSizesPrefix(order, groups, g + 1, h);
    assert order[..g + 1] == order[..g] + [order[g]];
    SumSizesSplit(order[..g], [order[g]], groups);
  }

  /** Longer prefixes count at least as many addresses. */
  lemma {:induction false} SumSizesPrefix(order: seq<string>, groups: map<string, seq<Fields>>, a: nat, b: nat)
    requires a <= b <= |order|
    requires forall k :: k in order ==> k in groups
    ensures SumSizes(order[..a], groups) <= SumSizes(order[..b], groups)
  {
    assert order[..b] == order[..a] + order[a..b];
    SumSizesSplit(order[..a], order[a..b], groups);
  }

  /** `SumSizes` adds up over concatenation. */
  lemma {:induction false} SumSizesSplit(a: seq<string>, b: seq<string>, groups: map<string, seq<Fields>>)
    requires forall k :: k in a ==> k in groups
    requires forall k :: k in b ==> k in groups
    ensures SumSizes(a + b, groups) == SumSizes(a, groups) + SumSizes(b, groups)
    decreases |a|
  {
    if |a| > 0 {
      assert (a + b)[1..] == a[1..] + b;
      SumSizesSplit(a[1..], b, groups);
    } else {
      assert a + b == b;
    }
  }

  lemma TwoGroupsOrder(groups: map<string, seq<Fields>>, first: string, second: string)
    requires groups.Keys == {first, second} && StrLess(second, first)
    ensures GroupOrder(groups) == [first, second]
  {
    StrLessIrreflexive(first);
    GroupOrderUnique(groups, [first, second]);
  }

  lemma TwoGroupsSizes(groups: map<string, seq<Fields>>, first: string, second: string)
    requires first in groups && second in groups
    requires |groups[first]| == 1 && |groups[second]| == 1
    ensures SumSizes([first, second], groups) == 2
    ensures Offset([first, second], groups, 0) == 0
    ensures Offset([first, second], groups, 1) == 1
  {
    var order := [first, second];
    assert order[1..] == [second] && [second][1..] == [] && [first][1..] == [];
    assert SumSizes([second], groups) == 1;
    assert SumSizes([first], groups) == 1;
    assert order[..0] == [] && order[..1] == [first];
  }

  /** Two single-address groups: the one with the greater key is exported first. */
  lemma AddressesTwoGroups(groups: map<string, seq<Fields>>, first: string, second: string)
    requires groups.Keys == {first, second} && StrLess(second, first)
    requires |groups[first]| == 1 && |groups[second]| == 1
    ensures Addresses(groups) == [groups[first][0], groups[second][0]]
  {
    TwoGroupsOrder(groups, first, second);
    TwoGroupsSizes(groups, first, second);
    AddressesPlaces(groups, 0, 0);
    AddressesPlaces(groups, 1, 0);
  }

  /** The payment address is exported before the delivery address. */
  lemma PaymentBeforeDelivery(payment: Fields, delivery: Fields)
    ensures Addresses(map["delivery" := [delivery], "payment" := [payment]]) == [payment, delivery]
  {
    var groups := map["delivery" := [delivery], "payment" := [payment]];
    assert StrLess("delivery", "payment");
    AddressesTwoGroups(groups, "payment", "delivery");
  }
}
