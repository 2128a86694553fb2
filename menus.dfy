/**
  The weighted menu list that both copies of the wheel keep: an ordered
  sequence of `{name, count}` entries (the random colour is presentation
  only and is not modelled). Order is insertion order and decides where a
  sector is drawn.
 */
module Menus {

  import opened Wrappers
  import JsText

  datatype Menu = Menu(name: string, count: int)

  /** The invariant both copies keep: every stored count is at least 1. */
  predicate AllPositive(menus: seq<Menu>) {
    forall i :: 0 <= i < |menus| ==> menus[i].count >= 1
  }

  /** The sum of all counts. */
  function Sum(menus: seq<Menu>): int {
    if menus == [] then 0 else menus[0].count + Sum(menus[1..])
  }

  /** `menus.reduce((acc, cur) => acc + cur.count, acc)`: a left fold over the counts. */
  function ReduceCounts(menus: seq<Menu>, acc: int): (r: int)
    ensures r == acc + Sum(menus)
  {
    if menus == [] then acc else ReduceCounts(menus[1..], acc + menus[0].count)
  }

  /** The cumulative weight of the first `k` entries. */
  function Prefix(menus: seq<Menu>, k: nat): int
    requires k <= |menus|
  {
    Sum(menus[..k])
  }

  /** The argument check of `addMenu(name, count)`: `None` stands for a `NaN` count. */
  predicate AddAccepted(name: string, count: Option<int>) {
    name != "" && JsText.Trim(name) != "" && count.Some? && count.value >= 1
  }

  /** The list after `splice(index, 1)`. */
  function RemoveAt(menus: seq<Menu>, index: nat): (r: seq<Menu>)
    requires index < |menus|
    ensures |r| == |menus| - 1
    ensures forall j :: 0 <= j < index ==> r[j] == menus[j]
    ensures forall j :: index <= j < |r| ==> r[j] == menus[j + 1]
    ensures AllPositive(menus) ==> AllPositive(r)
  {
    menus[..index] + menus[index + 1..]
  }

  /** The list after `menus[index].count++`. */
  function Increased(menus: seq<Menu>, index: nat): (r: seq<Menu>)
    requires index < |menus|
    ensures |r| == |menus|
    ensures r[index].name == menus[index].name && r[index].count == menus[index].count + 1
    ensures forall j :: 0 <= j < |r| && j != index ==> r[j] == menus[j]
    ensures AllPositive(menus) ==> AllPositive(r)
  {
    menus[index := menus[index].(count := menus[index].count + 1)]
  }

  /** The list after `menus[index].count--`, with the entry spliced out when its count drops below 1. */
  function Decreased(menus: seq<Menu>, index: nat): (r: seq<Menu>)
    requires index < |menus|
    ensures menus[index].count >= 2 ==>
      |r| == |menus| && r[index].name == menus[index].name && r[index].count == menus[index].count - 1
      && forall j :: 0 <= j < |r| && j != index ==> r[j] == menus[j]
    ensures menus[index].count < 2 ==> r == RemoveAt(menus, index)
    ensures AllPositive(menus) ==> AllPositive(r)
  {
    var lowered := menus[index := menus[index].(count := menus[index].count - 1)];
    if lowered[index].count < 1 then RemoveAt(lowered, index) else lowered
  }

  // ----- the total and its partners -----

  lemma {:induction false} SumAppend(a: seq<Menu>, b: seq<Menu>)
    ensures Sum(a + b) == Sum(a) + Sum(b)
  {
    if a == [] {
      assert a + b == b;
    } else {
      assert (a + b)[1..] == a[1..] + b;
      SumAppend(a[1..], b);
    }
  }

  /** Adding an entry at the end adds its count to the total. */
  lemma SumPush(menus: seq<Menu>, m: Menu)
    ensures Sum(menus + [m]) == Sum(menus) + m.count
  {
    SumAppend(menus, [m]);
    assert Sum([m]) == m.count + Sum([]);
  }

  /** Under the invariant the total is at least the number of entries, so it is 0 exactly for an empty list. */
  lemma {:induction false} SumBound(menus: seq<Menu>)
    requires AllPositive(menus)
    ensures Sum(menus) >= |menus|
    ensures Sum(menus) == 0 <==> menus == []
  {
    if menus != [] {
      assert AllPositive(menus[1..]) by {
        forall i | 0 <= i < |menus[1..]| ensures menus[1..][i].count >= 1 {
          assert menus[1..][i] == menus[i + 1];
        }
      }
      SumBound(menus[1..]);
    }
  }

  /** Removing an entry takes exactly its count off the total. */
  lemma SumRemoveAt(menus: seq<Menu>, index: nat)
    requires index < |menus|
    ensures Sum(RemoveAt(menus, index)) == Sum(menus) - menus[index].count
  {
    assert menus == menus[..index] + ([menus[index]] + menus[index + 1..]);
    SumAppend(menus[..index], [menus[index]] + menus[index + 1..]);
    SumAppend(menus[..index], menus[index + 1..]);
    assert Sum([menus[index]] + menus[index + 1..]) == menus[index].count + Sum(menus[index + 1..]) by {
      assert ([menus[index]] + menus[index + 1..])[1..] == menus[index + 1..];
    }
  }

  /** Changing one count changes the total by the same amount. */
  lemma SumWithCount(menus: seq<Menu>, index: nat, c: int)
    requires index < |menus|
    ensures Sum(menus[index := menus[index].(count := c)]) == Sum(menus) - menus[index].count + c
  {
    var m := menus[index].(count := c);
    var r := menus[index := m];
    assert menus == menus[..index] + ([menus[index]] + menus[index + 1..]);
    assert r == menus[..index] + ([m] + menus[index + 1..]);
    SumAppend(menus[..index], [menus[index]] + menus[index + 1..]);
    SumAppend(menus[..index], [m] + menus[index + 1..]);
    assert ([menus[index]] + menus[index + 1..])[1..] == menus[index + 1..];
    assert ([m] + menus[index + 1..])[1..] == menus[index + 1..];
  }

  // ----- cumulative weights -----

  lemma PrefixStep(menus: seq<Menu>, k: nat)
    requires k < |menus|
    ensures Prefix(menus, k + 1) == Prefix(menus, k) + menus[k].count
  {
    assert menus[..k + 1] == menus[..k] + [menus[k]];
    SumPush(menus[..k], menus[k]);
  }

  lemma PrefixFull(menus: seq<Menu>)
    ensures Prefix(menus, |menus|) == Sum(menus)
  {
    assert menus[..|menus|] == menus;
  }

  /** Under the invariant the cumulative weights strictly increase, from 0 up to the total. */
  lemma {:induction false} PrefixIncreasing(menus: seq<Menu>, j: nat, k: nat)
    requires AllPositive(menus)
    requires j < k <= |menus|
    ensures Prefix(menus, j) < Prefix(menus, k)
  {
    PrefixStep(menus, k - 1);
    if j < k - 1 {
      PrefixIncreasing(menus, j, k - 1);
    }
  }
}
