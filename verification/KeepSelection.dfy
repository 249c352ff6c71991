/** Which dice a keep suffix selects (client/src/api/dice_notation.ts): the indices sorted by
    value with ties to the lower index, and the first n of them. */
module KeepSelection {

  /** The comparator handed to the sort. */
  predicate Before(values: seq<nat>, highest: bool, a: nat, b: nat)
    requires a < |values| && b < |values|
  {
    || (if highest then values[a] > values[b] else values[a] < values[b])
    || (values[a] == values[b] && a < b)
  }

  ghost predicate Indices(values: seq<nat>, order: seq<nat>) {
    forall i :: 0 <= i < |order| ==> order[i] < |values|
  }

  ghost predicate Sorted(values: seq<nat>, highest: bool, order: seq<nat>)
    requires Indices(values, order)
  {
    forall i, j :: 0 <= i < j < |order| ==> Before(values, highest, order[i], order[j])
  }

  function Insert(values: seq<nat>, highest: bool, k: nat, order: seq<nat>): (r: seq<nat>)
    requires k < |values| && Indices(values, order)
    ensures Indices(values, r) && |r| == |order| + 1
  {
    if order == [] || Before(values, highest, k, order[0]) then [k] + order
    else [order[0]] + Insert(values, highest, k, order[1..])
  }

  /** The indices below n, sorted. */
  function Order(values: seq<nat>, highest: bool, n: nat): (r: seq<nat>)
    requires n <= |values|
    ensures Indices(values, r) && |r| == n
  {
    if n == 0 then [] else Insert(values, highest, n - 1, Order(values, highest, n - 1))
  }

  /** The kept indices: the first n of the sorted ones. */
  function Kept(values: seq<nat>, highest: bool, n: nat): set<nat>
    requires n <= |values|
  {
    set i | 0 <= i < n :: Order(values, highest, |values|)[i]
  }

  // ---------------------------------------------------------------- the order is sorted and complete

  lemma {:induction false} InsertMembers(values: seq<nat>, highest: bool, k: nat, order: seq<nat>)
    requires k < |values| && Indices(values, order)
    ensures forall x: nat :: x in Insert(values, highest, k, order) <==> x == k || x in order
  {
    if order != [] && !Before(values, highest, k, order[0]) {
      InsertMembers(values, highest, k, order[1..]);
      assert forall x :: x in order <==> x == order[0] || x in order[1..];
    }
  }

  lemma SortedTail(values: seq<nat>, highest: bool, order: seq<nat>)
    requires order != [] && Indices(values, order)
    ensures Sorted(values, highest, order) <==>
            Sorted(values, highest, order[1..]) && forall x :: x in order[1..] ==> Before(values, highest, order[0], x)
  {
    if Sorted(values, highest, order[1..]) && (forall x :: x in order[1..] ==> Before(values, highest, order[0], x)) {
      forall i, j | 0 <= i < j < |order| ensures Before(values, highest, order[i], order[j]) {
        assert order[j] == order[1..][j - 1];
        if i > 0 { assert order[i] == order[1..][i - 1]; }
      }
    }
  }

  lemma {:induction false} InsertSorted(values: seq<nat>, highest: bool, k: nat, order: seq<nat>)
    requires k < |values| && Indices(values, order) && Sorted(values, highest, order) && k !in order
    ensures Sorted(values, highest, Insert(values, highest, k, order))
  {
    var r := Insert(values, highest, k, order);
    if order != [] && Before(values, highest, k, order[0]) {
      SortedTail(values, highest, order);
      assert r[1..] == order;
      SortedTail(values, highest, r);
    } else if order != [] {
      SortedTail(values, highest, order);
      InsertSorted(values, highest, k, order[1..]);
      InsertMembers(values, highest, k, order[1..]);
      assert r[1..] == Insert(values, highest, k, order[1..]);
      SortedTail(values, highest, r);
    }
  }

  lemma {:induction false} OrderSorted(values: seq<nat>, highest: bool, n: nat)
    requires n <= |values|
    ensures Sorted(values, highest, Order(values, highest, n))
    ensures forall x: nat :: x in Order(values, highest, n) <==> x < n
  {
    if n > 0 {
      OrderSorted(values, highest, n - 1);
      InsertMembers(values, highest, n - 1, Order(values, highest, n - 1));
      InsertSorted(values, highest, n - 1, Order(values, highest, n - 1));
    }
  }

  /** Two sorted lists of the same indices are one list, so any sorting algorithm gives this one. */
  lemma {:induction false} SortedUnique(values: seq<nat>, highest: bool, a: seq<nat>, b: seq<nat>)
    requires Indices(values, a) && Indices(values, b) && Sorted(values, highest, a) && Sorted(values, highest, b)
    requires forall x :: x in a <==> x in b
    ensures a == b
    decreases |a|
  {
    assert |a| > 0 ==> a[0] in b;
    assert |b| > 0 ==> b[0] in a;
    if a != [] {
      SortedTail(values, highest, a);
      SortedTail(values, highest, b);
      assert a[0] in b && b[0] in a;
      assert a[0] == b[0];
      assert forall x :: x in a[1..] <==> x in a && x != a[0];
      assert forall x :: x in b[1..] <==> x in b && x != b[0];
      SortedUnique(values, highest, a[1..], b[1..]);
      assert a == [a[0]] + a[1..] && b == [b[0]] + b[1..];
    }
  }

  // ---------------------------------------------------------------- counting and summing a choice of dice

  ghost function CountTo(s: set<nat>, n: nat): nat {
    if n == 0 then 0 else CountTo(s, n - 1) + if n - 1 in s then 1 else 0
  }

  ghost function SumTo(values: seq<nat>, s: set<nat>, n: nat): int
    requires n <= |values|
  {
    if n == 0 then 0 else SumTo(values, s, n - 1) + if n - 1 in s then values[n - 1] else 0
  }

  /** The sum of the chosen dice. */
  ghost function SumOf(values: seq<nat>, s: set<nat>): int {
    SumTo(values, s, |values|)
  }

  ghost predicate Chosen(values: seq<nat>, s: set<nat>, n: nat) {
    |s| == n && forall x :: x in s ==> x < |values|
  }

  lemma {:induction false} CountBelow(s: set<nat>, n: nat)
    ensures CountTo(s, n) == |set x | x in s && x < n|
  {
    if n == 0 {
      assert (set x | x in s && x < 0) == {};
    } else {
      CountBelow(s, n - 1);
      var below := set x | x in s && x < n - 1;
      assert (set x | x in s && x < n) == if n - 1 in s then below + {n - 1} else below;
    }
  }

  lemma CountIsSize(values: seq<nat>, s: set<nat>, n: nat)
    requires Chosen(values, s, n)
    ensures CountTo(s, |values|) == n
  {
    CountBelow(s, |values|);
    assert (set x | x in s && x < |values|) == s;
  }

  /** Every kept die comes before every die left out. */
  ghost predicate Leads(values: seq<nat>, highest: bool, s: set<nat>) {
    && (forall x :: x in s ==> x < |values|)
    && forall x: nat, y: nat :: x in s && y < |values| && y !in s ==> Before(values, highest, x, y)
  }

  lemma KeptLeads(values: seq<nat>, highest: bool, n: nat)
    requires n <= |values|
    ensures Leads(values, highest, Kept(values, highest, n)) && Chosen(values, Kept(values, highest, n), n)
  {
    var order := Order(values, highest, |values|);
    OrderSorted(values, highest, |values|);
    forall x: nat, y: nat | x in Kept(values, highest, n) && y < |values| && y !in Kept(values, highest, n)
      ensures Before(values, highest, x, y)
    {
      var i :| 0 <= i < n && order[i] == x;
      assert y in order;
    }
    KeptSize(values, highest, n);
  }

  lemma {:induction false} FrontSize(order: seq<nat>, n: nat)
    requires n <= |order| && forall i, j :: 0 <= i < j < |order| ==> order[i] != order[j]
    ensures |set i | 0 <= i < n :: order[i]| == n
  {
    if n > 0 {
      var front := set i | 0 <= i < n - 1 :: order[i];
      FrontSize(order, n - 1);
      assert order[n - 1] !in front;
      assert (set i | 0 <= i < n :: order[i]) == front + {order[n - 1]};
    }
  }

  lemma KeptSize(values: seq<nat>, highest: bool, n: nat)
    requires n <= |values|
    ensures |Kept(values, highest, n)| == n
  {
    hide Order;
    var order := Order(values, highest, |values|);
    OrderSorted(values, highest, |values|);
    forall i, j | 0 <= i < j < |order| ensures order[i] != order[j] {
      assert Before(values, highest, order[i], order[j]);
    }
    FrontSize(order, n);
  }

  /** `m` separates a choice from the rest. */
  lemma {:induction false} ExchangeBound(values: seq<nat>, highest: bool, kept: set<nat>, other: set<nat>, m: nat,
                                         n: nat)
    requires n <= |values|
    requires forall x: nat :: x < |values| && x in kept ==> if highest then values[x] >= m else values[x] <= m
    requires forall x: nat :: x < |values| && x !in kept ==> if highest then values[x] <= m else values[x] >= m
    ensures var gain := SumTo(values, kept, n) - SumTo(values, other, n) - m * (CountTo(kept, n) - CountTo(other, n));
            if highest then gain >= 0 else gain <= 0
  {
    if n > 0 {
      ExchangeBound(values, highest, kept, other, m, n - 1);
      var k: int, o: int := CountTo(kept, n - 1), CountTo(other, n - 1);
      Distribute(m, k - o, (if n - 1 in kept then 1 else 0) - (if n - 1 in other then 1 else 0));
    }
  }

  lemma Distribute(m: int, a: int, b: int)
    ensures m * (a + b) == m * a + m * b
  {
  }

  /** The value of the last kept die separates the kept dice from the others. */
  lemma KeptThreshold(values: seq<nat>, highest: bool, n: nat) returns (m: nat)
    requires 0 < n <= |values|
    ensures forall x: nat :: x < |values| && x in Kept(values, highest, n) ==>
            if highest then values[x] >= m else values[x] <= m
    ensures forall x: nat :: x < |values| && x !in Kept(values, highest, n) ==>
            if highest then values[x] <= m else values[x] >= m
  {
    var order := Order(values, highest, |values|);
    OrderSorted(values, highest, |values|);
    m := values[order[n - 1]];
    forall x: nat | x < |values|
      ensures x in Kept(values, highest, n) ==> if highest then values[x] >= m else values[x] <= m
      ensures x !in Kept(values, highest, n) ==> if highest then values[x] <= m else values[x] >= m
    {
      assert x in order;
      var i :| 0 <= i < |values| && order[i] == x;
      if i < n - 1 {
        assert Before(values, highest, order[i], order[n - 1]);
      } else if i > n - 1 {
        assert Before(values, highest, order[n - 1], order[i]);
      }
    }
  }

  /** The kept dice of khN sum to at least as much as any other N dice, those of klN to at most as much. */
  lemma KeptIsOptimal(values: seq<nat>, highest: bool, n: nat, other: set<nat>)
    requires n <= |values| && Chosen(values, other, n)
    ensures if highest then SumOf(values, other) <= SumOf(values, Kept(values, highest, n))
            else SumOf(values, other) >= SumOf(values, Kept(values, highest, n))
  {
    hide Kept, Leads, Order, Sorted, SumTo, CountTo;
    var kept := Kept(values, highest, n);
    KeptLeads(values, highest, n);
    CountIsSize(values, kept, n);
    CountIsSize(values, other, n);
    if n > 0 {
      var m := KeptThreshold(values, highest, n);
      ExchangeBound(values, highest, kept, other, m, |values|);
    } else {
      assert other == {} && kept == {};
    }
  }

  /** Ties leave no freedom: the kept set is the only choice of n dice that comes before all others. */
  lemma KeptIsUnique(values: seq<nat>, highest: bool, n: nat, other: set<nat>)
    requires n <= |values| && Chosen(values, other, n)
    ensures Leads(values, highest, other) <==> other == Kept(values, highest, n)
  {
    var kept := Kept(values, highest, n);
    KeptLeads(values, highest, n);
    if Leads(values, highest, other) {
      if x :| x in other && x !in kept {
        NotAllInside(other, kept, x);
      } else {
        SubsetSize(other, kept);
      }
    }
  }

  lemma NotAllInside(a: set<nat>, b: set<nat>, x: nat)
    requires |a| == |b| && x in a && x !in b
    ensures exists y :: y in b && y !in a
  {
    if b <= a {
      SubsetSize(b, a);
    }
  }

  lemma SubsetSize(a: set<nat>, b: set<nat>)
    requires a <= b && |a| == |b|
    ensures a == b
  {
    assert |b - a| == |b| - |a|;
  }
}
