/** `LinkedList<T>` (week3/linked_list/src/linked_list.rs): a singly linked list of boxed
    nodes with a cached size. A `Box` is owned by exactly one place, so the chain of nodes is
    a value; the list object that holds it is updated in place. */
module LinkedLists {
  import opened Wrappers

  /** `struct Node<T>`. */
  datatype Node<T> = Node(value: T, next: Option<Node<T>>)

  /** The values along a chain of nodes, head first. */
  function Elems<T>(head: Option<Node<T>>): seq<T>
    decreases head
  {
    match head
    case None => []
    case Some(n) => [n.value] + Elems(n.next)
  }

  /** What `fmt` writes for the values `xs`: each value preceded by one space. */
  function Render<T>(xs: seq<T>, show: T -> string): string
  {
    if xs == [] then "" else " " + show(xs[0]) + Render(xs[1..], show)
  }

  /** `xs` in reverse order. */
  function Reversed<T>(xs: seq<T>): (r: seq<T>)
    ensures |r| == |xs|
    ensures forall i :: 0 <= i < |xs| ==> r[i] == xs[|xs| - 1 - i]
  {
    if xs == [] then [] else Reversed(xs[1..]) + [xs[0]]
  }

  class LinkedList<T> {
    /** `head: Option<Box<Node<T>>>`. */
    var head: Option<Node<T>>
    /** `size: usize`. */
    var size: nat

    /** The invariant every method keeps: the cached size is the number of nodes. */
    ghost predicate Valid()
      reads this
    {
      size == |Elems(head)|
    }

    /** The values of the list, front first. */
    function Contents(): seq<T>
      reads this
    {
      Elems(head)
    }

    /** `LinkedList::new`: the empty list. */
    constructor ()
      ensures Valid() && Contents() == [] && size == 0
    {
      head := None;
      size := 0;
    }

    /** `get_size`: the number of values in the list. */
    function GetSize(): (n: nat)
      requires Valid()
      reads this
      ensures n == |Contents()|
    {
      size
    }

    /** `is_empty`: the list holds no value. */
    function IsEmpty(): (b: bool)
      requires Valid()
      reads this
      ensures b <==> Contents() == []
    {
      GetSize() == 0
    }

    /** `push_front`: `value` becomes the head, in front of the old contents. */
    method PushFront(value: T)
      requires Valid()
      modifies this
      ensures Valid()
      ensures Contents() == [value] + old(Contents())
      ensures size == old(size) + 1
    {
      head := Some(Node(value, head));
      size := size + 1;
    }

    /** `pop_front`: nothing on an empty list; otherwise the head value, leaving the rest. */
    method PopFront() returns (r: Option<T>)
      requires Valid()
      modifies this
      ensures Valid()
      ensures old(Contents()) == [] ==> r == None && Contents() == [] && size == old(size)
      ensures old(Contents()) != [] ==>
        && r == Some(old(Contents())[0])
        && Contents() == old(Contents())[1..]
        && size == old(size) - 1
    {
      if head.None? {
        return None;
      }
      var node := head.value;
      head := node.next;
      size := size - 1;
      return Some(node.value);
    }

    /** `Display::fmt`: walks the nodes, appending a space and each value. */
    method Fmt(show: T -> string) returns (result: string)
      ensures result == Render(Contents(), show)
    {
      var current := head;
      result := "";
      while current.Some?
        invariant result + Render(Elems(current), show) == Render(Contents(), show)
        decreases current
      {
        var node := current.value;
        assert Render(Elems(current), show) == " " + show(node.value) + Render(Elems(node.next), show);
        result := result + " " + show(node.value);
        current := node.next;
      }
    }
  }

  /** A push followed by a pop gives back the value and the list as it was. */
  method PushThenPop<T>(list: LinkedList<T>, v: T) returns (r: Option<T>)
    requires list.Valid()
    modifies list
    ensures r == Some(v) && list.Valid()
    ensures list.Contents() == old(list.Contents()) && list.size == old(list.size)
  {
    list.PushFront(v);
    r := list.PopFront();
    assert list.Contents() == ([v] + old(list.Contents()))[1..];
  }

  /** Pushing each value of `xs` in turn to the front leaves them in reverse order in front
      of what was there. */
  method PushEach<T>(list: LinkedList<T>, xs: seq<T>)
    requires list.Valid()
    modifies list
    ensures list.Valid()
    ensures list.Contents() == Reversed(xs) + old(list.Contents())
    ensures list.size == old(list.size) + |xs|
  {
    for i := 0 to |xs|
      invariant list.Valid()
      invariant list.Contents() == Reversed(xs[..i]) + old(list.Contents())
      invariant list.size == old(list.size) + i
    {
      assert xs[..i + 1][1..] == xs[1..i + 1];
      ReversedSnoc(xs[..i], xs[i]);
      assert xs[..i + 1] == xs[..i] + [xs[i]];
      list.PushFront(xs[i]);
    }
    assert xs[..|xs|] == xs;
  }

  lemma ReversedSnoc<T>(xs: seq<T>, x: T)
    ensures Reversed(xs + [x]) == [x] + Reversed(xs)
  {
  }

  /** `PartialEq::eq`: different sizes are unequal; otherwise the values are compared pairwise,
      front to back, until one differs. Two lists are equal exactly when they hold the same
      values in the same order. */
  method Equal<T(==)>(a: LinkedList<T>, b: LinkedList<T>) returns (r: bool)
    requires a.Valid() && b.Valid()
    ensures r <==> a.Contents() == b.Contents()
    ensures r <==> |a.Contents()| == |b.Contents()| && forall i :: 0 <= i < |a.Contents()| ==> a.Contents()[i] == b.Contents()[i]
  {
    if a.GetSize() != b.GetSize() {
      return false;
    }
    var selfCur := a.head;
    var otherCur := b.head;
    ghost var k := 0;
    while true
      invariant 0 <= k <= |a.Contents()| == |b.Contents()|
      invariant Elems(selfCur) == a.Contents()[k..] && Elems(otherCur) == b.Contents()[k..]
      invariant a.Contents()[..k] == b.Contents()[..k]
      decreases |Elems(selfCur)|
    {
      match selfCur {
        case Some(selfNode) =>
          match otherCur {
            case Some(otherNode) =>
              if selfNode.value != otherNode.value {
                assert a.Contents()[k] != b.Contents()[k];
                return false;
              }
              otherCur := otherNode.next;
            case None =>
              break;
          }
          assert a.Contents()[..k + 1] == b.Contents()[..k + 1];
          selfCur := selfNode.next;
          k := k + 1;
        case None =>
          break;
      }
    }
    assert a.Contents() == a.Contents()[..k] && b.Contents() == b.Contents()[..k];
    return true;
  }

  /** The numerals "1" to "11", as the demonstration program pushes them. */
  const NUMERALS: seq<string> := ["1", "2", "3", "4", "5", "6", "7", "8", "9", "10", "11"]

  /** `Display` of a `String`: the string itself. */
  function ShowString(s: string): string
  {
    s
  }

  /** The demonstration's first list: "1" to "11" pushed in turn onto an empty list, which
      then displays them from 11 down to 1. */
  method Countdown() returns (shown: string)
    ensures shown == " 11 10 9 8 7 6 5 4 3 2 1"
  {
    var list := new LinkedList<string>();
    PushEach(list, NUMERALS);
    assert list.Contents() == Reversed(NUMERALS);
    shown := list.Fmt(ShowString);
    CountdownValues();
    CountdownRender();
  }

  lemma CountdownValues()
    ensures Reversed(NUMERALS) == ["11", "10", "9", "8", "7", "6", "5", "4", "3", "2", "1"]
  {
    ReversedUnique(NUMERALS, ["11", "10", "9", "8", "7", "6", "5", "4", "3", "2", "1"]);
  }

  /** A sequence that holds the values of `xs` back to front is `Reversed(xs)`. */
  lemma ReversedUnique<T>(xs: seq<T>, ys: seq<T>)
    requires |xs| == |ys|
    requires forall i :: 0 <= i < |xs| ==> ys[i] == xs[|xs| - 1 - i]
    ensures Reversed(xs) == ys
  {
  }

  /** Rendering a concatenation renders the two parts one after the other. */
  lemma {:induction false} RenderAppend<T>(xs: seq<T>, ys: seq<T>, show: T -> string)
    ensures Render(xs + ys, show) == Render(xs, show) + Render(ys, show)
  {
    if xs == [] {
      assert xs + ys == ys;
    } else {
      assert (xs + ys)[1..] == xs[1..] + ys;
      RenderAppend(xs[1..], ys, show);
    }
  }

  lemma RenderCons<T>(x: T, xs: seq<T>, show: T -> string)
    ensures Render([x] + xs, show) == " " + show(x) + Render(xs, show)
  {
    assert ([x] + xs)[1..] == xs;
  }

  lemma CountdownRender()
    ensures Render(["11", "10", "9", "8", "7", "6", "5", "4", "3", "2", "1"], ShowString) == " 11 10 9 8 7 6 5 4 3 2 1"
  {
    var h: seq<string>, m: seq<string>, l: seq<string> := ["11", "10", "9"], ["8", "7", "6", "5"], ["4", "3", "2", "1"];
    assert h + (m + l) == ["11", "10", "9", "8", "7", "6", "5", "4", "3", "2", "1"];
    RenderChunks(h, m, l);
    assert " 11 10 9" + (" 8 7 6 5" + " 4 3 2 1") == " 11 10 9 8 7 6 5 4 3 2 1";
  }

  lemma RenderChunks(h: seq<string>, m: seq<string>, l: seq<string>)
    requires h == ["11", "10", "9"] && m == ["8", "7", "6", "5"] && l == ["4", "3", "2", "1"]
    ensures Render(h + (m + l), ShowString) == " 11 10 9" + (" 8 7 6 5" + " 4 3 2 1")
  {
    RenderHigh();
    RenderMiddle();
    RenderLow();
    RenderAppend(m, l, ShowString);
    RenderAppend(h, m + l, ShowString);
  }

  lemma RenderHigh()
    ensures Render(["11", "10", "9"], ShowString) == " 11 10 9"
  {
    RenderCons("9", [], ShowString);
    RenderCons("10", ["9"], ShowString);
    RenderCons("11", ["10", "9"], ShowString);
  }

  lemma RenderMiddle()
    ensures Render(["8", "7", "6", "5"], ShowString) == " 8 7 6 5"
  {
    RenderCons("5", [], ShowString);
    RenderCons("6", ["5"], ShowString);
    RenderCons("7", ["6", "5"], ShowString);
    RenderCons("8", ["7", "6", "5"], ShowString);
  }

  lemma RenderLow()
    ensures Render(["4", "3", "2", "1"], ShowString) == " 4 3 2 1"
  {
    RenderCons("1", [], ShowString);
    RenderCons("2", ["1"], ShowString);
    RenderCons("3", ["2", "1"], ShowString);
    RenderCons("4", ["3", "2", "1"], ShowString);
  }
}
