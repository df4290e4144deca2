/** Where a value belongs in a list that is kept in ascending order: after every
    value that is not greater than it. Lists of timers and lists of list items
    are both ordered by this one definition. */
module SortedOrder {

  ghost predicate Sorted(values: seq<nat>) {
    forall i, j :: 0 <= i < j < |values| ==> values[i] <= values[j]
  }

  /** The index of the first value greater than `v`, or the length if there is none. */
  function InsertPosition(values: seq<nat>, v: nat): (p: nat)
    ensures p <= |values|
    ensures forall i :: 0 <= i < p ==> values[i] <= v
    ensures p < |values| ==> v < values[p]
  {
    if values == [] || v < values[0] then 0 else 1 + InsertPosition(values[1..], v)
  }

  lemma InsertPositionIsUnique(values: seq<nat>, v: nat, p: nat)
    requires p <= |values|
    requires forall i :: 0 <= i < p ==> values[i] <= v
    requires p < |values| ==> v < values[p]
    ensures p == InsertPosition(values, v)
  {
  }

  function InsertAt<T>(s: seq<T>, p: nat, x: T): (r: seq<T>)
    requires p <= |s|
    ensures |r| == |s| + 1 && r[p] == x
    ensures forall i :: 0 <= i < p ==> r[i] == s[i]
    ensures forall i :: p < i < |r| ==> r[i] == s[i-1]
  {
    seq(|s| + 1, i requires 0 <= i <= |s| => if i < p then s[i] else if i == p then x else s[i-1])
  }

  function RemoveAt<T>(s: seq<T>, k: nat): (r: seq<T>)
    requires k < |s|
    ensures |r| == |s| - 1
    ensures forall i :: 0 <= i < k ==> r[i] == s[i]
    ensures forall i :: k <= i < |r| ==> r[i] == s[i+1]
  {
    seq(|s| - 1, i requires 0 <= i < |s| - 1 => if i < k then s[i] else s[i+1])
  }

  /** Inserting into a sorted list keeps it sorted, and puts the new value behind
      every equal value and in front of every greater one. */
  lemma InsertKeepsSorted(values: seq<nat>, v: nat)
    requires Sorted(values)
    ensures Sorted(InsertAt(values, InsertPosition(values, v), v))
    ensures forall i :: 0 <= i < |values| ==> (values[i] <= v <==> i < InsertPosition(values, v))
  {
    var p := InsertPosition(values, v);
    forall i | 0 <= i < |values| && p <= i
      ensures v < values[i]
    {
      assert values[p] <= values[i];
    }
    var r := InsertAt(values, p, v);
    forall i, j | 0 <= i < j < |r|
      ensures r[i] <= r[j]
    {
      assert r[i] == if i < p then values[i] else if i == p then v else values[i-1];
    }
  }

  lemma InsertMembers<T>(s: seq<T>, p: nat, x: T)
    requires p <= |s|
    ensures forall y :: y in InsertAt(s, p, x) <==> y in s || y == x
  {
    var r := InsertAt(s, p, x);
    assert r[p] == x;
    forall y | y in s
      ensures y in r
    {
      var i :| 0 <= i < |s| && s[i] == y;
      assert r[if i < p then i else i + 1] == y;
    }
  }

  lemma RemoveMembers<T>(s: seq<T>, k: nat)
    requires k < |s| && Distinct(s)
    ensures forall y :: y in RemoveAt(s, k) <==> y in s && y != s[k]
  {
    var r := RemoveAt(s, k);
    RemoveKeepsDistinct(s, k);
    forall y | y in s && y != s[k]
      ensures y in r
    {
      var i :| 0 <= i < |s| && s[i] == y;
      assert r[if i < k then i else i - 1] == y;
    }
  }

  /** Changing one of two joined sequences changes the joined one at one place. */
  lemma InsertInJoined<T>(a: seq<T>, b: seq<T>, p: nat, x: T)
    ensures p <= |a| ==> InsertAt(a, p, x) + b == InsertAt(a + b, p, x)
    ensures p <= |b| ==> a + InsertAt(b, p, x) == InsertAt(a + b, |a| + p, x)
  {
  }

  lemma RemoveInJoined<T>(a: seq<T>, b: seq<T>, k: nat)
    ensures k < |a| ==> RemoveAt(a, k) + b == RemoveAt(a + b, k)
    ensures k < |b| ==> a + RemoveAt(b, k) == RemoveAt(a + b, |a| + k)
  {
  }

  lemma RemoveUndoesInsert<T>(s: seq<T>, p: nat, x: T)
    requires p <= |s|
    ensures InsertAt(s, p, x)[p] == x
    ensures RemoveAt(InsertAt(s, p, x), p) == s
  {
  }

  /** Two places of a sequence hold different members. */
  ghost predicate Apart<T>(s: seq<T>, i: nat, j: nat)
    requires i < |s| && j < |s|
  {
    s[i] != s[j]
  }

  ghost predicate Distinct<T>(s: seq<T>) {
    forall i, j {:trigger Apart(s, i, j)} :: 0 <= i < |s| && 0 <= j < |s| && i != j ==> Apart(s, i, j)
  }

  /** Putting a new member in, or taking one out, leaves the rest apart. */
  lemma InsertKeepsDistinct<T>(s: seq<T>, p: nat, x: T)
    requires Distinct(s) && x !in s && p <= |s|
    ensures Distinct(InsertAt(s, p, x))
  {
    var r := InsertAt(s, p, x);
    forall i, j | 0 <= i < |r| && 0 <= j < |r| && i != j
      ensures Apart(r, i, j)
    {
      assert i != p && j != p ==> Apart(s, if i < p then i else i - 1, if j < p then j else j - 1);
    }
  }

  lemma RemoveKeepsDistinct<T>(s: seq<T>, p: nat)
    requires Distinct(s) && p < |s|
    ensures Distinct(RemoveAt(s, p)) && s[p] !in RemoveAt(s, p)
  {
    var r := RemoveAt(s, p);
    forall i, j | 0 <= i < |r| && 0 <= j < |r| && i != j
      ensures Apart(r, i, j)
    {
      assert Apart(s, if i < p then i else i + 1, if j < p then j else j + 1);
    }
    forall i | 0 <= i < |r|
      ensures r[i] != s[p]
    {
      assert Apart(s, if i < p then i else i + 1, p);
    }
  }

  /** Where the first member of one sequence stands in another with the same members. */
  lemma FindFirst<T>(a: seq<T>, b: seq<T>) returns (before: seq<T>, after: seq<T>)
    requires multiset(a) == multiset(b) && a != []
    ensures b == before + ([a[0]] + after) && multiset(a[1..]) == multiset(before + after)
  {
    var x := a[0];
    assert x in multiset(a) && x in b;
    var i :| 0 <= i < |b| && b[i] == x;
    before, after := b[..i], b[i+1..];
    assert b == before + ([x] + after);
    SameRest(x, a, a[1..], b, before, after);
  }

  lemma SameRest<T>(x: T, a: seq<T>, rest: seq<T>, b: seq<T>, before: seq<T>, after: seq<T>)
    requires a == [x] + rest && b == before + ([x] + after) && multiset(a) == multiset(b)
    ensures multiset(rest) == multiset(before + after)
  {
    var one, r, p, q := multiset{x}, multiset(rest), multiset(before), multiset(after);
    assert multiset([x]) == one;
    assert one + r == p + (one + q);
    assert multiset(before + after) == p + q;
    assert forall y :: r[y] == (one + r)[y] - one[y] && (p + q)[y] == (one + (p + q))[y] - one[y];
  }

  lemma RemoveKeepsSorted(values: seq<nat>, k: nat)
    requires Sorted(values) && k < |values|
    ensures Sorted(RemoveAt(values, k))
  {
  }
}

/** The kernel's circular doubly linked list with an end marker (list.c). */
module IntrusiveList {
  import opened SortedOrder

  /** portMAX_DELAY for 32-bit ticks: the value of every end marker. */
  const MAX_DELAY: nat := 0xFFFF_FFFF
  type Tick = v: nat | v <= MAX_DELAY

  class ListItem {
    var value: Tick
    var next: ListItem?
    var previous: ListItem?
    var container: List?

    /** vListInitialiseItem: the value and the links are left as they are. */
    constructor (value: Tick)
      ensures this.value == value && container == null
    {
      this.value := value;
      container := null;
    }
  }

  ghost function Values(items: seq<ListItem>): (vs: seq<nat>)
    reads items
    ensures |vs| == |items| && forall i :: 0 <= i < |items| ==> vs[i] == items[i].value
  {
    seq(|items|, i requires 0 <= i < |items| reads items => items[i].value)
  }

  function Succ(n: nat, i: nat): nat { if i + 1 == n then 0 else i + 1 }

  function Pred(n: nat, i: nat): int { if i == 0 then n - 1 else i - 1 }

  /** The member at place `i` points at its two neighbours. */
  ghost predicate LinkedAt(ring: seq<ListItem>, i: nat)
    requires i < |ring|
    reads ring
  {
    ring[i].next == ring[Succ(|ring|, i)] && ring[i].previous == ring[Pred(|ring|, i)]
  }

  ghost predicate Linked(ring: seq<ListItem>)
    reads ring
  {
    forall i {:trigger LinkedAt(ring, i)} :: 0 <= i < |ring| ==> LinkedAt(ring, i)
  }

  /** What stands next to place `i` once a member was put in at `p`, in terms of
      the place `j` where the member at `i` stood before. */
  lemma NeighboursAfterInsert(ring: seq<ListItem>, p: nat, x: ListItem, i: nat, j: nat)
    requires Distinct(ring) && 0 < p <= |ring| && i <= |ring| && i != p && j == if i < p then i else i - 1
    ensures var n, r := |ring|, InsertAt(ring, p, x);
            && r[i] == ring[j]
            && r[Succ(n + 1, i)] == (if j == p - 1 then x else ring[Succ(n, j)])
            && r[Pred(n + 1, i)] == (if j == Succ(n, p - 1) then x else ring[Pred(n, j)])
    ensures ring[j] == ring[p-1] <==> j == p - 1
    ensures ring[j] == ring[Succ(|ring|, p - 1)] <==> j == Succ(|ring|, p - 1)
  {
    assert j != p - 1 ==> Apart(ring, j, p - 1);
    assert j != Succ(|ring|, p - 1) ==> Apart(ring, j, Succ(|ring|, p - 1));
  }

  lemma NeighboursAfterRemove(ring: seq<ListItem>, p: nat, i: nat, j: nat)
    requires Distinct(ring) && 0 < p < |ring| && i < |ring| - 1 && j == if i < p then i else i + 1
    ensures var n, r := |ring|, RemoveAt(ring, p);
            && r[i] == ring[j] && ring[j] != ring[p]
            && r[Succ(n - 1, i)] == ring[if j == p - 1 then Succ(n, p) else Succ(n, j)]
            && r[Pred(n - 1, i)] == ring[if j == Succ(n, p) then p - 1 else Pred(n, j)]
    ensures ring[j] == ring[p-1] <==> j == p - 1
    ensures ring[j] == ring[Succ(|ring|, p)] <==> j == Succ(|ring|, p)
  {
    assert Apart(ring, j, p);
    assert j != p - 1 ==> Apart(ring, j, p - 1);
    assert j != Succ(|ring|, p) ==> Apart(ring, j, Succ(|ring|, p));
  }

  /** The order in which a round robin that last stopped `k` steps after the end
      marker meets the items. */
  ghost function Walk<T>(items: seq<T>, k: nat): (w: seq<T>)
    requires k <= |items|
  {
    items[k..] + items[..k]
  }

  /** One step of the round robin turns its order by one. */
  lemma RotateWalk<T>(items: seq<T>, k: nat)
    requires 0 < |items| && k <= |items|
    ensures var j := if k == |items| then 1 else k + 1;
            && Walk(items, k)[0] == items[j-1]
            && Walk(items, j) == Walk(items, k)[1..] + [items[j-1]]
  {
    if k < |items| {
      assert items[k..][1..] == items[k+1..];
    } else {
      assert Walk(items, k) == items;
    }
  }

  /** An item put in just before the round robin's position is the last one it
      comes to before it is back where it stands. */
  lemma InsertEndIsMetLast<T>(items: seq<T>, k: nat, x: T)
    requires k <= |items|
    ensures k == 0 ==> Walk(items + [x], 0) == Walk(items, 0) + [x]
    ensures k > 0 ==>
              var w := Walk(items, k);
              Walk(InsertAt(items, k - 1, x), k + 1) == w[..|w|-1] + [x] + [w[|w|-1]]
  {
    if k > 0 {
      var w := Walk(items, k);
      var r := InsertAt(items, k - 1, x);
      assert r[k+1..] == items[k..];
      assert r[..k+1] == items[..k-1] + [x] + [items[k-1]];
      assert w[..|w|-1] == items[k..] + items[..k-1];
    }
  }

  class List {
    const end: ListItem
    var index: ListItem
    var count: nat
    /** The end marker followed by the members in order. */
    ghost var ring: seq<ListItem>
    /** The place of the round robin's index in the ring. */
    ghost var position: nat

    ghost predicate Valid()
      reads this, ring
    {
      && ring != [] && ring[0] == end && end.value == MAX_DELAY
      && Distinct(ring) && Linked(ring)
      && count == |ring| - 1
      && position < |ring| && index == ring[position]
      && (forall i :: 1 <= i < |ring| ==> ring[i].container == this)
    }

    ghost function Items(): (items: seq<ListItem>)
      requires Valid()
      reads this, ring
      ensures |items| == count
    {
      ring[1..]
    }

    /** vListInitialise */
    constructor ()
      ensures Valid() && fresh(end) && Items() == [] && position == 0
    {
      var marker := new ListItem(MAX_DELAY);
      end := marker;
      index := marker;
      count := 0;
      ring := [marker];
      position := 0;
      new;
      end.next := end;
      end.previous := end;
    }

    /** The pointer updates of both insertions, made between two neighbours. */
    static method Link(before: ListItem, x: ListItem, after: ListItem, ghost ring: seq<ListItem>, ghost p: nat)
      requires Distinct(ring) && Linked(ring) && x !in ring && 0 < p <= |ring|
      requires before == ring[p-1] && after == ring[Succ(|ring|, p - 1)]
      modifies before`next, after`previous, x`next, x`previous
      ensures Linked(InsertAt(ring, p, x))
    {
      x.next := after;
      x.previous := before;
      before.next := x;
      after.previous := x;
      ghost var n, r := |ring|, InsertAt(ring, p, x);
      forall i | 0 <= i <= n
        ensures LinkedAt(r, i)
      {
        if i != p {
          var j := if i < p then i else i - 1;
          NeighboursAfterInsert(ring, p, x, i, j);
          assert old(LinkedAt(ring, j));
        }
      }
    }

    /** The pointer updates of a removal. */
    static method Unlink(x: ListItem, ghost ring: seq<ListItem>, ghost p: nat)
      requires Distinct(ring) && Linked(ring) && 0 < p < |ring| && x == ring[p]
      requires x.next == ring[Succ(|ring|, p)] && x.previous == ring[p-1]
      modifies x.next`previous, x.previous`next
      ensures Linked(RemoveAt(ring, p))
    {
      x.next.previous := x.previous;
      x.previous.next := x.next;
      ghost var n, r := |ring|, RemoveAt(ring, p);
      forall i | 0 <= i < n - 1
        ensures LinkedAt(r, i)
      {
        var j := if i < p then i else i + 1;
        NeighboursAfterRemove(ring, p, i, j);
        assert old(LinkedAt(ring, j));
      }
    }

    /** What an insertion does once it has found its neighbours. */
    method LinkBetween(before: ListItem, x: ListItem, after: ListItem, ghost p: nat)
      requires Valid() && x !in ring && 0 < p <= |ring|
      requires before == ring[p-1] && after == ring[Succ(|ring|, p - 1)]
      modifies this`count, this`ring, this`position, before, x, after
      ensures Valid() && x.container == this && x.value == old(x.value)
      ensures ring == InsertAt(old(ring), p, x)
      ensures position == if old(position) >= p then old(position) + 1 else old(position)
      ensures forall y {:trigger y.value} :: y in old(ring) ==> y.value == old(y.value)
    {
      Link(before, x, after, ring, p);
      InsertKeepsDistinct(ring, p, x);
      ghost var r := InsertAt(ring, p, x);
      label linked:
      x.container := this;
      count := count + 1;
      ring := r;
      position := if position >= p then position + 1 else position;
      forall i | 0 <= i < |ring|
        ensures LinkedAt(ring, i)
      {
        assert old@linked(LinkedAt(r, i));
      }
    }

    /** vListInsertEnd */
    method InsertEnd(x: ListItem)
      requires Valid() && x !in ring
      modifies this, ring, x
      ensures Valid() && x.container == this && x.value == old(x.value)
      ensures index == old(index)
      ensures ring == InsertAt(old(ring), if old(position) == 0 then |old(ring)| else old(position), x)
      ensures position == if old(position) == 0 then 0 else old(position) + 1
      ensures forall y {:trigger y.value} :: y in old(ring) ==> y.value == old(y.value)
    {
      ghost var p := if position == 0 then |ring| else position;
      assert LinkedAt(ring, position) && index in ring && ring[p-1] in ring;
      LinkBetween(index.previous, x, index, p);
    }

    /** vListInsert */
    method Insert(x: ListItem)
      requires Valid() && x !in ring
      modifies this, ring, x
      ensures Valid() && x.container == this && x.value == old(x.value)
      ensures index == old(index)
      ensures ring == InsertAt(old(ring), InsertPosition(old(Values(ring[1..])), old(x.value)) + 1, x)
      ensures forall y {:trigger y.value} :: y in old(ring) ==> y.value == old(y.value)
    {
      var v := x.value;
      ghost var p := 0;
      var before := end;
      assert LinkedAt(ring, 0);
      if v == MAX_DELAY {
        p := |ring| - 1;
        before := end.previous;
      } else {
        while before.next.value <= v
          invariant 0 <= p < |ring| && before == ring[p] && before.next == ring[Succ(|ring|, p)]
          invariant forall i {:trigger ring[i].value} :: 1 <= i <= p ==> ring[i].value <= v
          decreases |ring| - p
        {
          before := before.next;
          p := p + 1;
          assert LinkedAt(ring, p);
        }
      }
      InsertPositionIsUnique(Values(ring[1..]), v, p);
      assert LinkedAt(ring, p) && ring[p] in ring && ring[Succ(|ring|, p)] in ring;
      LinkBetween(before, x, before.next, p + 1);
    }

    /** uxListRemove */
    method Remove(x: ListItem) returns (remaining: nat, ghost p: nat)
      requires Valid() && x in Items()
      modifies this, ring
      ensures Valid() && x.container == null && x.value == old(x.value)
      ensures 0 < p < |old(ring)| && old(ring)[p] == x && x !in ring
      ensures ring == RemoveAt(old(ring), p) && remaining == |Items()|
      ensures position == if old(position) >= p then old(position) - 1 else old(position)
      ensures old(index) != x ==> index == old(index)
      ensures forall y {:trigger y.value} :: y in old(ring) ==> y.value == old(y.value)
    {
      p :| 0 < p < |ring| && ring[p] == x;
      ghost var n := |ring|;
      assert LinkedAt(ring, p) && ring[p-1] in ring && ring[Succ(n, p)] in ring;
      assert Apart(ring, position, p) <==> position != p;
      assert Apart(ring, Succ(n, p), p);
      Unlink(x, ring, p);
      RemoveKeepsDistinct(ring, p);
      ghost var r := RemoveAt(ring, p);
      label unlinked:
      if index == x {
        index := x.previous;
      }
      x.container := null;
      count := count - 1;
      ring := r;
      position := if position >= p then position - 1 else position;
      forall i | 0 <= i < |ring|
        ensures LinkedAt(ring, i)
      {
        assert old@unlinked(LinkedAt(r, i));
      }
      remaining := count;
    }

    /** listGET_OWNER_OF_NEXT_ENTRY: advance the round robin, stepping over the end marker. */
    method NextEntry() returns (x: ListItem)
      requires Valid() && Items() != []
      modifies this`index, this`position
      ensures Valid() && x == index
      ensures x == Walk(Items(), old(position))[0]
      ensures Walk(Items(), position) == Walk(Items(), old(position))[1..] + [x]
    {
      assert LinkedAt(ring, position);
      assert position + 1 < |ring| ==> Apart(ring, position + 1, 0);
      index := index.next;
      if index == end {
        assert LinkedAt(ring, 0);
        index := index.next;
      }
      RotateWalk(ring[1..], position);
      position := if position + 1 == |ring| then 1 else position + 1;
      x := index;
      forall i | 0 <= i < |ring|
        ensures LinkedAt(ring, i)
      {
        assert old(LinkedAt(ring, i));
      }
    }
  }

  /** A list's links are a function of its ghost sequence, so taking out an item
      that was just put in leaves every old link as it was. */
  method InsertThenRemove(l: List, x: ListItem)
    requires l.Valid() && x !in l.ring
    modifies l, l.ring, x
    ensures l.Valid() && l.ring == old(l.ring) && l.index == old(l.index) && l.count == old(l.count)
    ensures forall y <- l.ring :: y.next == old(y.next) && y.previous == old(y.previous)
  {
    ghost var ring := l.ring;
    ghost var p := InsertPosition(Values(ring[1..]), x.value) + 1;
    l.Insert(x);
    ghost var longer := l.ring;
    assert Distinct(longer) && longer == InsertAt(ring, p, x);
    var _, k := l.Remove(x);
    assert Apart(longer, k, p) || k == p;
    RemoveUndoesInsert(ring, p, x);
    forall y <- l.ring
      ensures y.next == old(y.next) && y.previous == old(y.previous)
    {
      var i :| 0 <= i < |ring| && ring[i] == y;
      assert LinkedAt(ring, i) && old(LinkedAt(ring, i));
    }
  }
}
