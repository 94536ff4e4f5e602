/**
 * A multiset kept as a counting table: each stored item maps to how many
 * times it was added (never zero: an item whose count would drop to zero is
 * deleted), and a size field holds the total.  The ghost `contents` is the
 * multiset the table stands for.
 */
module HashTables {
  import opened Wrappers

  datatype TableError = KeyError | TypeError

  /** The count the table holds for `x`; absent items count zero, as in a default dictionary. */
  function CountOf<T>(table: map<T, nat>, x: T): nat
  {
    if x in table then table[x] else 0
  }

  /** Every stored count is at least one. */
  ghost predicate Positive<T>(table: map<T, nat>)
  {
    forall x :: x in table ==> table[x] >= 1
  }

  /** `add` on the table: one more of `item`. */
  function Increment<T(!new)>(table: map<T, nat>, item: T): (r: map<T, nat>)
    ensures forall x :: CountOf(r, x) == CountOf(table, x) + (if x == item then 1 else 0)
    ensures Positive(table) ==> Positive(r) && r.Keys == table.Keys + {item}
  {
    table[item := CountOf(table, item) + 1]
  }

  /**
   * `discard` on the table: one fewer of `item` when it is stored; a count
   * that reaches zero removes the item.
   */
  function Decrement<T(!new)>(table: map<T, nat>, item: T): (r: map<T, nat>)
    ensures forall x :: CountOf(r, x) == if x == item && CountOf(table, x) > 0 then CountOf(table, x) - 1 else CountOf(table, x)
    ensures Positive(table) ==> Positive(r)
    ensures item !in table ==> r == table
  {
    if item in table then
      if table[item] > 1 then table[item := table[item] - 1] else table - {item}
    else table
  }

  /** Adding an item and then discarding it gives back the same table. */
  lemma DecrementUndoesIncrement<T(!new)>(table: map<T, nat>, item: T)
    requires Positive(table)
    ensures Decrement(Increment(table, item), item) == table
  {
    var r := Decrement(Increment(table, item), item);
    if item in table {
      assert r == table[item := table[item]];
    } else {
      assert r.Keys == table.Keys;
    }
  }

  /** The table stands for `contents`: the count of every item is its multiplicity. */
  ghost predicate Represents<T(!new)>(table: map<T, nat>, contents: multiset<T>)
  {
    forall x :: CountOf(table, x) == contents[x]
  }

  /** The right operand of `union` and `intersection`: a set, a multiset, or anything else. */
  datatype Operand<T(==,!new)> = OfSet(items: set<T>) | OfMultiSet(multiSet: MultiSet<T>) | Other

  class MultiSet<T(==,!new)> {
    var table: map<T, nat>
    var size: int
    ghost var contents: multiset<T>

    /** The counts are positive, stand for `contents`, and add up to `size`. */
    ghost predicate Valid()
      reads this
    {
      Positive(table) && Represents(table, contents) && size == |contents|
    }

    /** A new multiset is empty: the initial items are not stored. */
    constructor(iterable: seq<T>)
      ensures Valid() && contents == multiset{} && table == map[] && size == 0
    {
      table := map[];
      size := 0;
      contents := multiset{};
    }

    /** The size is the number of stored items, repeats included. */
    method Length() returns (n: int)
      requires Valid()
      ensures n == |contents|
    {
      return size;
    }

    /** Membership tests the table's keys, which are exactly the stored items. */
    method Contains(item: T) returns (b: bool)
      requires Valid()
      ensures b <==> item in contents
    {
      return item in table;
    }

    method Add(item: T)
      requires Valid()
      modifies this
      ensures Valid()
      ensures table == Increment(old(table), item) && size == old(size) + 1
      ensures contents == old(contents) + multiset{item}
    {
      table := Increment(table, item);
      size := size + 1;
      contents := contents + multiset{item};
    }

    /** Removes one occurrence of `item` when there is one; otherwise nothing changes. */
    method Discard(item: T)
      requires Valid()
      modifies this
      ensures Valid()
      ensures table == Decrement(old(table), item)
      ensures size == if item in old(contents) then old(size) - 1 else old(size)
      ensures contents == old(contents) - multiset{item}
    {
      if item in table {
        table := Decrement(table, item);
        size := size - 1;
        contents := contents - multiset{item};
      }
    }

    /** Like `Discard`, but an absent item is a key error. */
    method Remove(item: T) returns (r: Outcome<TableError>)
      requires Valid()
      modifies this
      ensures Valid()
      ensures r == Fail(KeyError) <==> item !in old(contents)
      ensures r.Fail? ==> unchanged(this)
      ensures contents == old(contents) - multiset{item}
    {
      if item in table {
        Discard(item);
        return Pass;
      }
      return Fail(KeyError);
    }

    /** Iteration: every stored item, as many times as its count. */
    method Items() returns (items: seq<T>)
      requires Valid()
      ensures multiset(items) == contents && |items| == size
    {
      items := [];
      var remaining := table;
      while remaining != map[]
        invariant remaining.Keys <= table.Keys
        invariant forall x :: x in remaining ==> remaining[x] == table[x]
        invariant forall x :: multiset(items)[x] == if x in remaining then 0 else CountOf(table, x)
        decreases |remaining|
      {
        var item := PickKey(remaining);
        var count := remaining[item];
        var k := 0;
        while k < count
          invariant 0 <= k <= count
          invariant forall x :: multiset(items)[x] == if x in remaining && x != item then 0 else if x == item then k else CountOf(table, x)
        {
          items := items + [item];
          k := k + 1;
        }
        remaining := remaining - {item};
      }
      assert multiset(items) == contents;
    }

    /** The items a `union` or `intersection` operand yields, or a type error. */
    static method OperandItems(other: Operand<T>) returns (r: Result<seq<T>, TableError>)
      requires other.OfMultiSet? ==> other.multiSet.Valid()
      ensures other.Other? <==> r.Err?
      ensures r.Err? ==> r.error == TypeError
      ensures r.Ok? ==> multiset(r.value) == Yielded(other)
    {
      match other {
        case Other =>
          return Err(TypeError);
        case OfSet(s) =>
          var items := SetItems(s);
          return Ok(items);
        case OfMultiSet(m) =>
          var items := m.Items();
          return Ok(items);
      }
    }

    /**
     * Union as written: a new multiset holding exactly the operand's items;
     * the receiver's own items are not included.
     */
    method Union(other: Operand<T>) returns (r: Result<MultiSet<T>, TableError>)
      requires Valid() && (other.OfMultiSet? ==> other.multiSet.Valid())
      ensures other.Other? <==> r.Err?
      ensures r.Err? ==> r.error == TypeError
      ensures r.Ok? ==> fresh(r.value) && r.value.Valid() && r.value.contents == Yielded(other)
    {
      var items := OperandItems(other);
      if items.Err? {
        return Err(TypeError);
      }
      var result := new MultiSet([]);
      var i := 0;
      while i < |items.value|
        invariant 0 <= i <= |items.value|
        invariant fresh(result) && result.Valid()
        invariant result.contents == multiset(items.value[..i])
      {
        result.Add(items.value[i]);
        assert items.value[..i + 1] == items.value[..i] + [items.value[i]];
        i := i + 1;
      }
      assert items.value[..i] == items.value;
      return Ok(result);
    }

    /**
     * Intersection: a new multiset holding each item the operand yields that
     * is stored here, once per time the operand yields it.
     */
    method Intersection(other: Operand<T>) returns (r: Result<MultiSet<T>, TableError>)
      requires Valid() && (other.OfMultiSet? ==> other.multiSet.Valid())
      ensures other.Other? <==> r.Err?
      ensures r.Err? ==> r.error == TypeError
      ensures r.Ok? ==> fresh(r.value) && r.value.Valid() &&
                        forall x :: r.value.contents[x] == if x in contents then Yielded(other)[x] else 0
    {
      var items := OperandItems(other);
      if items.Err? {
        return Err(TypeError);
      }
      var result := CollectStored(items.value, table);
      return Ok(result);
    }
  }

  /** The items of `s` that are keys of `stored`, with their repeats in `s`. */
  ghost function StoredPart<T(!new)>(s: seq<T>, stored: map<T, nat>): multiset<T>
  {
    if s == [] then multiset{}
    else StoredPart(s[..|s| - 1], stored) + (if s[|s| - 1] in stored then multiset{s[|s| - 1]} else multiset{})
  }

  /** An item's count in the stored part is its count in `s` when it is stored, and zero otherwise. */
  lemma {:induction false} StoredPartCounts<T(!new)>(s: seq<T>, stored: map<T, nat>)
    ensures forall x :: StoredPart(s, stored)[x] == if x in stored then multiset(s)[x] else 0
  {
    if s != [] {
      var init := s[..|s| - 1];
      StoredPartCounts(init, stored);
      assert s == init + [s[|s| - 1]];
    }
  }

  /**
   * The intersection loop: a new multiset that adds each of `items`, in
   * order, when it is a key of `stored`.
   */
  method CollectStored<T(==,!new)>(items: seq<T>, stored: map<T, nat>) returns (result: MultiSet<T>)
    ensures fresh(result) && result.Valid()
    ensures forall x :: result.contents[x] == if x in stored then multiset(items)[x] else 0
  {
    result := new MultiSet([]);
    var i := 0;
    while i < |items|
      invariant 0 <= i <= |items|
      invariant fresh(result) && result.Valid()
      invariant result.contents == StoredPart(items[..i], stored)
    {
      var item := items[i];
      assert items[..i + 1][..i] == items[..i];
      if item in stored {
        result.Add(item);
      }
      i := i + 1;
    }
    assert items[..i] == items;
    StoredPartCounts(items, stored);
  }

  /** What iterating an operand yields: a set's items once each, a multiset's with their counts. */
  ghost function Yielded<T(!new)>(other: Operand<T>): multiset<T>
    reads if other.OfMultiSet? then {other.multiSet} else {}
  {
    match other
    case OfSet(s) => multiset(s)
    case OfMultiSet(m) => m.contents
    case Other => multiset{}
  }

  /** Iterating a set: each of its items once. */
  method SetItems<T>(s: set<T>) returns (items: seq<T>)
    ensures multiset(items) == multiset(s)
  {
    items := [];
    var remaining := s;
    while remaining != {}
      invariant remaining <= s
      invariant forall x :: multiset(items)[x] == if x in s && x !in remaining then 1 else 0
      decreases |remaining|
    {
      var item := PickItem(remaining);
      items := items + [item];
      remaining := remaining - {item};
    }
  }

  method PickKey<T>(m: map<T, nat>) returns (k: T)
    requires m != map[]
    ensures k in m
  {
    PickItemExists(m.Keys);
    k :| k in m;
  }

  method PickItem<T>(s: set<T>) returns (k: T)
    requires s != {}
    ensures k in s
  {
    PickItemExists(s);
    k :| k in s;
  }

  lemma PickItemExists<T>(s: set<T>)
    requires s != {} || exists x :: x in s
    ensures exists x :: x in s
  {
    if forall x :: x !in s {
      assert false;
    }
  }
}
