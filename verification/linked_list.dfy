/**
 The `LinkedList` class: a singly linked chain of nodes with a `size` counter kept beside it.

 A list is modelled by the sequence of values reachable from `head`, in order, together with
 the counter. A node reference held while walking the chain is modelled by its position. The
 `tail` field is left out: it is written but never read.
 */
module LinkedLists {
  import opened Wrappers

  /** The error `at` and `removeAt` throw for a position outside the list. */
  datatype ListError = IndexOutOfBounds

  /** `nodes` is the chain reachable from `head`; `size` is the counter the class maintains. */
  datatype LinkedList<T> = LinkedList(nodes: seq<T>, size: nat) {
    /** The class invariant: the counter agrees with the chain. */
    predicate Valid() {
      size == |nodes|
    }
  }

  /** The constructor: no head, size 0. */
  function Empty<T>(): (l: LinkedList<T>)
    ensures l.Valid() && l.size == 0
  {
    LinkedList([], 0)
  }

  /** `at(index)`: the value of the node at `index`, or the out-of-bounds error. */
  function At<T>(l: LinkedList<T>, index: int): (r: Result<T, ListError>)
    requires l.Valid()
    ensures r.Failure? <==> index < 0 || index >= l.size
    ensures r.Success? ==> r.value == l.nodes[index]
  {
    if index < 0 || index >= l.size then Failure(IndexOutOfBounds)
    else Success(l.nodes[index])
  }

  /** `append(value)`: links a new node after the last one and returns `value`. */
  function Append<T>(l: LinkedList<T>, value: T): (r: (LinkedList<T>, T))
    requires l.Valid()
    ensures r.0.Valid() && r.0.size == l.size + 1 && r.1 == value
    ensures At(r.0, l.size) == Success(value)
    ensures forall i :: 0 <= i < l.size ==> At(r.0, i) == At(l, i)
  {
    (LinkedList(l.nodes + [value], l.size + 1), value)
  }

  /** `prepend(value)`: a new head in front of the old chain; returns `value`. */
  function Prepend<T>(l: LinkedList<T>, value: T): (r: (LinkedList<T>, T))
    requires l.Valid()
    ensures r.0.Valid() && r.0.size == l.size + 1 && r.1 == value
    ensures At(r.0, 0) == Success(value)
    ensures forall i :: 0 <= i < l.size ==> At(r.0, i + 1) == At(l, i)
  {
    (LinkedList([value] + l.nodes, l.size + 1), value)
  }

  /**
   `pop()`: on an empty list returns nothing and changes nothing; otherwise unlinks the last
   node and returns its value. On a one-node list the walk to the second-to-last node
   dereferences null, so that case is excluded.
   */
  function Pop<T>(l: LinkedList<T>): (r: (LinkedList<T>, Option<T>))
    requires l.Valid() && l.size != 1
    ensures r.0.Valid()
    ensures l.size == 0 ==> r == (l, None)
    ensures l.size >= 2 ==> r.0.size == l.size - 1 && Some(l.nodes[l.size - 1]) == r.1
    ensures forall i :: 0 <= i < r.0.size ==> At(r.0, i) == At(l, i)
  {
    if l.size == 0 then (l, None)
    else (LinkedList(l.nodes[..l.size - 1], l.size - 1), Some(l.nodes[l.size - 1]))
  }

  /**
   `insertAt(value, index)` as intended: links the new node so that it ends up at `index`, and
   returns `value`. For `1 <= index <= size` this is exactly what the source does: walk to the
   node before `index` and link the new node after it. At index 0 the source goes wrong (see
   `InsertAtAsWritten`); here index 0 puts the new node in front, as `prepend` does. Indices past
   the end are excluded: the source dereferences null there. Negative indices, which the source
   treats as 1, are left to `InsertAtAsWritten` and rejected by `InsertAtChecked`.
   */
  function InsertAt<T>(l: LinkedList<T>, value: T, index: int): (r: (LinkedList<T>, T))
    requires l.Valid() && 0 <= index <= l.size
    ensures r.0.Valid() && r.0.size == l.size + 1 && r.1 == value
    ensures At(r.0, index) == Success(value)
    ensures forall i :: 0 <= i < index ==> At(r.0, i) == At(l, i)
    ensures forall i :: index <= i < l.size ==> At(r.0, i + 1) == At(l, i)
  {
    (LinkedList(l.nodes[..index] + [value] + l.nodes[index..], l.size + 1), value)
  }

  /**
   `insertAt(value, index)` as written, including index 0 and negative indices on a non-empty
   list. At index 0 the new node becomes the head, but the walk still starts from the old head
   and links the new node after it, taking over the old head's successor: the old head is lost
   while `size` still grows by one. A negative index skips the walk altogether, so the new node
   is linked after the head, as for index 1, and no error is raised. On an empty list index 0
   dereferences null, so that case is excluded.
   */
  function InsertAtAsWritten<T>(l: LinkedList<T>, value: T, index: int): (r: (LinkedList<T>, T))
    requires l.Valid() && index <= l.size && (index >= 1 || l.size >= 1)
    ensures index >= 1 ==> r == InsertAt(l, value, index)
    ensures index < 0 ==> r == InsertAt(l, value, 1)
    ensures index == 0 ==> r.0.size == l.size + 1 && |r.0.nodes| == l.size && r.1 == value
    ensures index == 0 ==> r.0.nodes == [value] + l.nodes[1..]
  {
    if index == 0 then (LinkedList([value] + l.nodes[1..], l.size + 1), value)
    else if index < 0 then InsertAt(l, value, 1)
    else InsertAt(l, value, index)
  }

  /**
   `insertAt(x, index)` with a negative `index` on a non-empty list succeeds and puts `x` at
   position 1, while `at(index)` and `removeAt(index)` on the result throw for that very index.
   */
  lemma InsertAtNegativeLinksSecond<T>(l: LinkedList<T>, value: T, index: int)
    requires l.Valid() && l.size >= 1 && index < 0
    ensures InsertAtAsWritten(l, value, index).0.Valid()
    ensures InsertAtAsWritten(l, value, index).0.nodes == [l.nodes[0], value] + l.nodes[1..]
    ensures At(InsertAtAsWritten(l, value, index).0, index).Failure?
    ensures RemoveAt(InsertAtAsWritten(l, value, index).0, index).Failure?
  {
    assert l.nodes[..1] == [l.nodes[0]];
  }

  /**
   `insertAt(value, index)` with the bounds check `at` and `removeAt` perform: the error for an
   index outside `0..size`, otherwise the value inserted at `index`.
   */
  function InsertAtChecked<T>(l: LinkedList<T>, value: T, index: int): (r: Result<(LinkedList<T>, T), ListError>)
    requires l.Valid()
    ensures r.Failure? <==> index < 0 || index > l.size
    ensures r.Success? ==>
              && r.value.0.Valid() && r.value.0.size == l.size + 1 && r.value.1 == value
              && At(r.value.0, index) == Success(value)
              && (forall i :: 0 <= i < index ==> At(r.value.0, i) == At(l, i))
              && (forall i :: index <= i < l.size ==> At(r.value.0, i + 1) == At(l, i))
  {
    if index < 0 || index > l.size then Failure(IndexOutOfBounds)
    else Success(InsertAt(l, value, index))
  }

  /** The checked `insertAt` rejects exactly the indices `removeAt` cannot undo, and `removeAt` undoes every other. */
  lemma InsertAtCheckedThenRemoveAt<T>(l: LinkedList<T>, value: T, index: int)
    requires l.Valid() && l.size >= 1
    ensures InsertAtChecked(l, value, index).Success? <==> 0 <= index <= l.size
    ensures InsertAtChecked(l, value, index).Success? ==>
              RemoveAt(InsertAtChecked(l, value, index).value.0, index) == Success((l, value))
  {
    if 0 <= index <= l.size {
      InsertAtThenRemoveAt(l, value, index);
    }
  }

  /**
   `insertAt(x, 0)` on the list `a -> b` leaves the chain `x -> b` with a counter of 3: `a` is
   gone and the counter disagrees with the chain, whereas `InsertAt` gives `x -> a -> b`.
   */
  lemma InsertAtHeadDropsHead<T>(a: T, b: T, x: T)
    ensures var l := LinkedList([a, b], 2);
      && InsertAtAsWritten(l, x, 0).0 == LinkedList([x, b], 3)
      && !InsertAtAsWritten(l, x, 0).0.Valid()
      && InsertAt(l, x, 0).0 == LinkedList([x, a, b], 3)
  {
    assert [a, b][1..] == [b];
    assert [a, b][..0] + [x] + [a, b][0..] == [x, a, b];
  }

  /**
   `removeAt(index)`: throws for a position outside the list; otherwise unlinks the node at
   `index` and returns its value. Removing index 0 of a one-node list dereferences null at the
   unlinking step, so that case is excluded.
   */
  function RemoveAt<T>(l: LinkedList<T>, index: int): (r: Result<(LinkedList<T>, T), ListError>)
    requires l.Valid() && !(index == 0 && l.size == 1)
    ensures r.Failure? <==> index < 0 || index >= l.size
    ensures r.Success? ==>
              && r.value.0.Valid()
              && r.value.0.size == l.size - 1
              && At(l, index) == Success(r.value.1)
              && (forall i :: 0 <= i < index ==> At(r.value.0, i) == At(l, i))
              && (forall i :: index <= i < r.value.0.size ==> At(r.value.0, i) == At(l, i + 1))
  {
    if index < 0 || index >= l.size then Failure(IndexOutOfBounds)
    else Success((LinkedList(l.nodes[..index] + l.nodes[index + 1..], l.size - 1), l.nodes[index]))
  }

  /** `pop` undoes `append` on a list that already has a node. */
  lemma AppendThenPop<T>(l: LinkedList<T>, value: T)
    requires l.Valid() && l.size >= 1
    ensures Pop(Append(l, value).0) == (l, Some(value))
  {
    assert (l.nodes + [value])[..l.size] == l.nodes;
  }

  /** `removeAt(0)` undoes `prepend` on a list that already has a node. */
  lemma PrependThenRemoveFirst<T>(l: LinkedList<T>, value: T)
    requires l.Valid() && l.size >= 1
    ensures RemoveAt(Prepend(l, value).0, 0) == Success((l, value))
  {
    var nodes := ([value] + l.nodes)[..0] + ([value] + l.nodes)[1..];
    assert nodes == l.nodes;
  }

  /** `removeAt(index)` undoes `insertAt(value, index)`, at every position where both are defined. */
  lemma InsertAtThenRemoveAt<T>(l: LinkedList<T>, value: T, index: int)
    requires l.Valid() && 0 <= index <= l.size && l.size >= 1
    ensures RemoveAt(InsertAt(l, value, index).0, index) == Success((l, value))
  {
    var grown := l.nodes[..index] + [value] + l.nodes[index..];
    assert grown[..index] + grown[index + 1..] == l.nodes;
  }

  /**
   `contains(value)`: reads the head first (so an empty list dereferences null), then scans
   the chain from the head.
   */
  method Contains<T(==)>(l: LinkedList<T>, value: T) returns (found: bool)
    requires |l.nodes| >= 1
    ensures found <==> value in l.nodes
  {
    if l.nodes[0] == value {
      return true;
    }
    var i := 0;
    while i < |l.nodes|
      invariant 0 <= i <= |l.nodes|
      invariant forall j :: 0 <= j < i ==> l.nodes[j] != value
    {
      if l.nodes[i] == value {
        return true;
      }
      i := i + 1;
    }
    return false;
  }

  /**
   `find(value)`: the position of the first node holding `value`, or nothing. The head is read
   unconditionally and the do-while loop steps to the next node before testing it, so the
   empty list and a one-node list without a match are excluded.
   */
  method Find<T(==)>(l: LinkedList<T>, value: T) returns (r: Option<nat>)
    requires |l.nodes| >= 2 || (|l.nodes| == 1 && l.nodes[0] == value)
    ensures r.Some? <==> value in l.nodes
    ensures r.Some? ==> r.value < |l.nodes| && l.nodes[r.value] == value
    ensures r.Some? ==> forall j :: 0 <= j < r.value ==> l.nodes[j] != value
  {
    var i := 0;
    if l.nodes[i] == value {
      return Some(i);
    }
    while true
      invariant 0 <= i && i + 1 < |l.nodes|
      invariant forall j :: 0 <= j <= i ==> l.nodes[j] != value
      decreases |l.nodes| - i
    {
      i := i + 1;
      if l.nodes[i] == value {
        return Some(i);
      }
      if i + 1 >= |l.nodes| {
        break;
      }
    }
    return None;
  }

  /** How `toString` renders one node, given the rendering of its value. */
  function Cell<T>(v: T, show: T -> string): string {
    "( " + show(v) + " )"
  }

  /** Every node's cell followed by ` -> `, closed by `null`. */
  function Arrows<T>(nodes: seq<T>, show: T -> string): string {
    if |nodes| == 0 then "null"
    else Cell(nodes[0], show) + " -> " + Arrows(nodes[1..], show)
  }

  /** The rendering `toString` promises: empty for an empty list, otherwise the arrow chain. */
  function Render<T>(nodes: seq<T>, show: T -> string): string {
    if |nodes| == 0 then "" else Arrows(nodes, show)
  }

  /**
   `toString()`: the empty string for an empty list; otherwise the head's cell, then each
   further node's cell after an arrow, then ` -> null`. The do-while loop steps past the head
   before reading, so a one-node list dereferences null and is excluded. `show` is how
   template interpolation renders a value.
   */
  method ToString<T>(l: LinkedList<T>, show: T -> string) returns (s: string)
    requires l.Valid() && l.size != 1
    ensures s == Render(l.nodes, show)
  {
    if l.size == 0 {
      return "";
    }
    var i := 0;
    s := Cell(l.nodes[0], show);
    while true
      invariant 0 <= i && i + 1 < |l.nodes|
      invariant s + " -> " + Arrows(l.nodes[i + 1..], show) == Arrows(l.nodes, show)
      decreases |l.nodes| - i
    {
      ghost var rest := Arrows(l.nodes[i + 2..], show);
      assert Arrows(l.nodes[i + 1..], show) == Cell(l.nodes[i + 1], show) + " -> " + rest by {
        assert l.nodes[i + 1..][1..] == l.nodes[i + 2..];
      }
      i := i + 1;
      s := s + " -> " + Cell(l.nodes[i], show);
      assert s + " -> " + rest == Arrows(l.nodes, show);
      if i + 1 >= |l.nodes| {
        break;
      }
    }
    assert l.nodes[i + 1..] == [];
    s := s + " -> null";
  }
}
