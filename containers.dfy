/** The two hand-written containers of TextEditorDSProject.java: a growable
    array of strings (SimpleStringList), which carries suggestion results, and
    a linked LIFO stack (SimpleStack), which holds undo and redo history. */
module Containers {

  /** What pop returns: Java's null becomes None. */
  datatype Option<T> = None | Some(value: T)

  // ---------- SimpleStringList ----------

  /** Capacity of a new list's backing array. */
  const InitialCapacity: nat := 4

  class SimpleStringList {
    var arr: array<string>
    var size: int

    ghost var Contents: seq<string>
    ghost var Repr: set<object>

    ghost predicate Valid()
      reads this, Repr
    {
      Repr == {this, arr} &&
      0 < arr.Length && 0 <= size <= arr.Length &&
      Contents == arr[..size]
    }

    constructor ()
      ensures Valid() && fresh(Repr)
      ensures Contents == [] && arr.Length == InitialCapacity
    {
      arr := new string[InitialCapacity];
      size := 0;
      Contents := [];
      Repr := {this, arr};
    }

    /** add: appends s, first doubling the backing array when it is full;
        the earlier elements keep their order. */
    method Add(s: string)
      requires Valid()
      modifies Repr
      ensures Valid() && fresh(Repr - old(Repr))
      ensures Contents == old(Contents) + [s]
      ensures arr.Length == if old(size) == old(arr.Length) then 2 * old(arr.Length) else old(arr.Length)
    {
      if size == arr.Length {
        var n := new string[arr.Length * 2];
        for i := 0 to arr.Length
          invariant n[..i] == arr[..i]
          modifies n
        {
          n[i] := arr[i];
        }
        arr := n;
        Repr := {this, arr};
      }
      arr[size] := s;
      size := size + 1;
      Contents := Contents + [s];
    }

    /** size: the number of strings added. */
    method Size() returns (n: int)
      requires Valid()
      ensures n == |Contents|
    {
      n := size;
    }

    /** get: the i-th string added. */
    method Get(i: int) returns (s: string)
      requires Valid() && 0 <= i < |Contents|
      ensures s == Contents[i]
    {
      s := arr[i];
    }
  }

  // ---------- SimpleStack ----------

  /** A stack cell. Its fields never change once it is pushed, so they are
      constants; `content` is the stack read from this cell downwards. */
  class StackNode<T> {
    const op: T
    const next: StackNode?<T>
    ghost const content: seq<T>

    ghost predicate Valid()
      decreases |content|
    {
      content == [op] + (if next == null then [] else next.content) &&
      (next != null ==> next.Valid())
    }

    constructor (op: T, next: StackNode?<T>)
      requires next != null ==> next.Valid()
      ensures Valid() && this.op == op && this.next == next
      ensures content == [op] + (if next == null then [] else next.content)
    {
      this.op := op;
      this.next := next;
      this.content := [op] + (if next == null then [] else next.content);
    }
  }

  class SimpleStack<T> {
    var top: StackNode?<T>
    /** The stacked values, top first. */
    ghost var Contents: seq<T>

    ghost predicate Valid()
      reads this
    {
      if top == null then Contents == [] else top.Valid() && Contents == top.content
    }

    constructor ()
      ensures Valid() && Contents == []
    {
      top := null;
      Contents := [];
    }

    method Push(x: T)
      requires Valid()
      modifies this
      ensures Valid() && Contents == [x] + old(Contents)
    {
      top := new StackNode(x, top);
      Contents := [x] + Contents;
    }

    /** pop: the most recently pushed value, or None (Java's null) when empty. */
    method Pop() returns (r: Option<T>)
      requires Valid()
      modifies this
      ensures Valid()
      ensures old(Contents) == [] ==> r == None && Contents == []
      ensures old(Contents) != [] ==> r == Some(old(Contents)[0]) && Contents == old(Contents)[1..]
    {
      if top == null {
        return None;
      }
      r := Some(top.op);
      top := top.next;
      Contents := Contents[1..];
    }

    method IsEmpty() returns (b: bool)
      requires Valid()
      ensures b <==> Contents == []
    {
      b := top == null;
    }

    method Clear()
      requires Valid()
      modifies this
      ensures Valid() && Contents == []
    {
      top := null;
      Contents := [];
    }
  }
}
