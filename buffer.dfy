/** The editor's character buffer: a doubly-linked list of characters with a
    cursor (EditorBuffer in TextEditorDSProject.java).

    The list nodes live in an arena: `nodes` holds one CharNode per node ever
    created, and `prev`/`next`/`head`/`tail`/`cursor` are arena indices, with
    -1 standing for Java's null. A deleted node simply becomes unreachable,
    as it would be garbage in Java. */
module Buffer {
  import opened Chars

  /** The arena index that stands for a null node reference. */
  const Null: int := -1

  /** What a user sees of the buffer: the text and the cursor offset (the
      number of characters before the cursor). */
  datatype TextState = TextState(text: string, cursor: nat) {
    ghost predicate Wf() { cursor <= |text| }
  }

  // ---------- The buffer operations on text states ----------

  /** insertChar: the character goes in at the cursor, which ends after it. */
  function Inserted(st: TextState, ch: char): TextState
    requires st.Wf()
  {
    TextState(st.text[..st.cursor] + [ch] + st.text[st.cursor..], st.cursor + 1)
  }

  /** deleteBeforeCursor, for a cursor that is not at the start. */
  function Deleted(st: TextState): TextState
    requires st.Wf() && st.cursor > 0
  {
    TextState(st.text[..st.cursor - 1] + st.text[st.cursor..], st.cursor - 1)
  }

  /** Start of the maximal run of letters that ends just before offset c. */
  function RunStart(s: string, c: nat): (r: nat)
    requires c <= |s|
    ensures r <= c
    ensures forall i :: r <= i < c ==> IsLetter(s[i])
    ensures r == 0 || !IsLetter(s[r - 1])
  {
    if c == 0 || !IsLetter(s[c - 1]) then c else RunStart(s, c - 1)
  }

  /** getWordPrefixBeforeCursor: the letters just before the cursor, lower-cased. */
  function WordPrefix(st: TextState): string
    requires st.Wf()
  {
    Lower(st.text[RunStart(st.text, st.cursor)..st.cursor])
  }

  /** The word prefix is exactly the lower-cased maximal letter run before the
      cursor: it ends at the cursor, every character of it is a letter, and it
      cannot be extended to the left. */
  lemma WordPrefixIsMaximalRun(st: TextState, j: nat)
    requires st.Wf() && j <= st.cursor
    requires forall i :: j <= i < st.cursor ==> IsLetter(st.text[i])
    requires j == 0 || !IsLetter(st.text[j - 1])
    ensures WordPrefix(st) == Lower(st.text[j..st.cursor])
    ensures st.cursor == 0 ==> WordPrefix(st) == ""
  {
  }

  // ---------- The arena ----------

  /** A list node: its character and the arena indices of its neighbours. */
  datatype CharNode = CharNode(c: char, prev: int, next: int)

  /** The arena index of the i-th node of the list, or Null off either end. */
  function Slot(order: seq<nat>, i: int): (r: int)
    ensures r == Null <==> !(0 <= i < |order|)
  {
    if 0 <= i < |order| then order[i] else Null
  }

  /** Every slot listed by `order` exists in the arena. */
  ghost predicate InArena(nodes: seq<CharNode>, order: seq<nat>) {
    forall i :: 0 <= i < |order| ==> order[i] < |nodes|
  }

  /** No arena slot is listed twice. */
  ghost predicate Distinct(order: seq<nat>) {
    forall i, j :: 0 <= i < j < |order| ==> order[i] != order[j]
  }

  /** Following `order`, the nodes carry the characters of `text` and point
      at their neighbours in the list. */
  ghost predicate Spells(nodes: seq<CharNode>, order: seq<nat>, text: string)
    requires InArena(nodes, order)
  {
    |order| == |text| &&
    forall i {:trigger nodes[order[i]]} :: 0 <= i < |order| ==>
      nodes[order[i]] == CharNode(text[i], Slot(order, i - 1), Slot(order, i + 1))
  }

  /** The arena nodes listed by `order` form a doubly-linked list spelling `text`. */
  ghost predicate Linked(nodes: seq<CharNode>, order: seq<nat>, text: string) {
    InArena(nodes, order) && Distinct(order) && Spells(nodes, order, text)
  }

  /** The list order after the new arena slot n is linked in at position c. */
  lemma InsertedOrder(order: seq<nat>, c: nat, n: nat, order': seq<nat>)
    requires c <= |order| && order' == order[..c] + [n] + order[c..]
    requires forall i :: 0 <= i < |order| ==> order[i] < n
    requires Distinct(order)
    ensures |order'| == |order| + 1
    ensures forall i {:trigger order'[i]} :: 0 <= i < |order'| ==>
      order'[i] == if i < c then order[i] else if i == c then n else order[i - 1]
    ensures Distinct(order')
  {
  }

  /** One node of the list after an insertion at offset c. */
  lemma InsertedNode(nodes: seq<CharNode>, order: seq<nat>, text: string, c: nat, ch: char,
                     nodes': seq<CharNode>, order': seq<nat>, text': string, i: nat)
    requires InArena(nodes, order) && Spells(nodes, order, text) && c <= |order|
    requires |nodes'| == |nodes| + 1
    requires |order'| == |order| + 1 && |text'| == |text| + 1 && i < |order'|
    requires forall j {:trigger order'[j]} :: 0 <= j < |order'| ==>
      order'[j] == if j < c then order[j] else if j == c then |nodes| else order[j - 1]
    requires text'[i] == if i < c then text[i] else if i == c then ch else text[i - 1]
    requires i < c - 1 ==> nodes'[order[i]] == nodes[order[i]]
    requires i == c - 1 ==> nodes'[order[i]] == nodes[order[i]].(next := |nodes|)
    requires i == c ==> nodes'[|nodes|] == CharNode(ch, Slot(order, c - 1), Slot(order, c))
    requires i == c + 1 ==> nodes'[order[c]] == nodes[order[c]].(prev := |nodes|)
    requires i > c + 1 ==> nodes'[order[i - 1]] == nodes[order[i - 1]]
    ensures nodes'[order'[i]] == CharNode(text'[i], Slot(order', i - 1), Slot(order', i + 1))
  {
    if i < c {
      assert nodes[order[i]] == CharNode(text[i], Slot(order, i - 1), Slot(order, i + 1));
      assert Slot(order', i - 1) == Slot(order, i - 1);
    } else if i > c {
      assert nodes[order[i - 1]] == CharNode(text[i - 1], Slot(order, i - 2), Slot(order, i));
      assert Slot(order', i + 1) == Slot(order, i);
    }
  }

  /** Every node of the list after an insertion at offset c. */
  lemma InsertedNodes(nodes: seq<CharNode>, order: seq<nat>, text: string, c: nat, ch: char,
                      nodes': seq<CharNode>, order': seq<nat>, text': string)
    requires Linked(nodes, order, text) && c <= |order|
    requires |nodes'| == |nodes| + 1
    requires nodes'[|nodes|] == CharNode(ch, Slot(order, c - 1), Slot(order, c))
    requires c > 0 ==> nodes'[order[c - 1]] == nodes[order[c - 1]].(next := |nodes|)
    requires c < |order| ==> nodes'[order[c]] == nodes[order[c]].(prev := |nodes|)
    requires forall k :: 0 <= k < |nodes| && k != Slot(order, c - 1) && k != Slot(order, c) ==>
      nodes'[k] == nodes[k]
    requires |order'| == |order| + 1 && |text'| == |text| + 1
    requires forall i {:trigger order'[i]} :: 0 <= i < |order'| ==>
      order'[i] == if i < c then order[i] else if i == c then |nodes| else order[i - 1]
    requires forall i {:trigger text'[i]} :: 0 <= i < |text'| ==>
      text'[i] == if i < c then text[i] else if i == c then ch else text[i - 1]
    requires InArena(nodes', order')
    ensures forall i :: 0 <= i < |order'| ==>
      nodes'[order'[i]] == CharNode(text'[i], Slot(order', i - 1), Slot(order', i + 1))
  {
    forall i | 0 <= i < |order'|
      ensures nodes'[order'[i]] == CharNode(text'[i], Slot(order', i - 1), Slot(order', i + 1))
    {
      if i < c - 1 {
        assert order[i] != order[c - 1];
        assert c < |order| ==> order[i] != order[c];
      } else if i > c + 1 {
        assert order[i - 1] != order[c];
        assert c > 0 ==> order[i - 1] != order[c - 1];
      }
      InsertedNode(nodes, order, text, c, ch, nodes', order', text', i);
    }
  }

  /** Linking a new node (appended to the arena) between the (c-1)-th and the
      c-th node of the list inserts its character at offset c. */
  lemma LinkedInsert(nodes: seq<CharNode>, order: seq<nat>, text: string, c: nat, ch: char,
                     nodes': seq<CharNode>)
    requires Linked(nodes, order, text) && c <= |order|
    requires |nodes'| == |nodes| + 1
    requires nodes'[|nodes|] == CharNode(ch, Slot(order, c - 1), Slot(order, c))
    requires c > 0 ==> nodes'[order[c - 1]] == nodes[order[c - 1]].(next := |nodes|)
    requires c < |order| ==> nodes'[order[c]] == nodes[order[c]].(prev := |nodes|)
    requires forall k :: 0 <= k < |nodes| && k != Slot(order, c - 1) && k != Slot(order, c) ==>
      nodes'[k] == nodes[k]
    ensures Linked(nodes', order[..c] + [|nodes|] + order[c..], text[..c] + [ch] + text[c..])
  {
    var order', text' := order[..c] + [|nodes|] + order[c..], text[..c] + [ch] + text[c..];
    InsertedOrder(order, c, |nodes|, order');
    assert forall i {:trigger text'[i]} :: 0 <= i < |text'| ==>
      text'[i] == if i < c then text[i] else if i == c then ch else text[i - 1];
    InsertedNodes(nodes, order, text, c, ch, nodes', order', text');
  }

  /** The list order after its (c-1)-th slot is unlinked. */
  lemma DeletedOrder(order: seq<nat>, c: nat, order': seq<nat>)
    requires 0 < c <= |order| && order' == order[..c - 1] + order[c..]
    requires Distinct(order)
    ensures |order'| == |order| - 1
    ensures forall i {:trigger order'[i]} :: 0 <= i < |order'| ==> order'[i] == if i < c - 1 then order[i] else order[i + 1]
    ensures Distinct(order')
  {
  }

  /** One node of the list after the removal of the node before offset c. */
  lemma DeletedNode(nodes: seq<CharNode>, order: seq<nat>, text: string, c: nat,
                    nodes': seq<CharNode>, order': seq<nat>, text': string, i: nat)
    requires InArena(nodes, order) && Spells(nodes, order, text) && 0 < c <= |order|
    requires |nodes'| == |nodes|
    requires |order'| == |order| - 1 && |text'| == |text| - 1 && i < |order'|
    requires forall j {:trigger order'[j]} :: 0 <= j < |order'| ==> order'[j] == if j < c - 1 then order[j] else order[j + 1]
    requires text'[i] == if i < c - 1 then text[i] else text[i + 1]
    requires i < c - 2 ==> nodes'[order[i]] == nodes[order[i]]
    requires i == c - 2 ==> nodes'[order[i]] == nodes[order[i]].(next := Slot(order, c))
    requires i == c - 1 ==> nodes'[order[c]] == nodes[order[c]].(prev := Slot(order, c - 2))
    requires i > c - 1 ==> nodes'[order[i + 1]] == nodes[order[i + 1]]
    ensures nodes'[order'[i]] == CharNode(text'[i], Slot(order', i - 1), Slot(order', i + 1))
  {
    if i < c - 1 {
      assert nodes[order[i]] == CharNode(text[i], Slot(order, i - 1), Slot(order, i + 1));
      assert Slot(order', i - 1) == Slot(order, i - 1);
    } else {
      assert nodes[order[i + 1]] == CharNode(text[i + 1], Slot(order, i), Slot(order, i + 2));
      assert Slot(order', i + 1) == Slot(order, i + 2);
    }
  }

  /** Every node of the list after the removal of the node before offset c. */
  lemma DeletedNodes(nodes: seq<CharNode>, order: seq<nat>, text: string, c: nat,
                     nodes': seq<CharNode>, order': seq<nat>, text': string)
    requires Linked(nodes, order, text) && 0 < c <= |order|
    requires |nodes'| == |nodes|
    requires c > 1 ==> nodes'[order[c - 2]] == nodes[order[c - 2]].(next := Slot(order, c))
    requires c < |order| ==> nodes'[order[c]] == nodes[order[c]].(prev := Slot(order, c - 2))
    requires forall k :: 0 <= k < |nodes| && k != Slot(order, c - 2) && k != Slot(order, c) ==>
      nodes'[k] == nodes[k]
    requires |order'| == |order| - 1 && |text'| == |text| - 1
    requires forall i {:trigger order'[i]} :: 0 <= i < |order'| ==> order'[i] == if i < c - 1 then order[i] else order[i + 1]
    requires forall i {:trigger text'[i]} :: 0 <= i < |text'| ==> text'[i] == if i < c - 1 then text[i] else text[i + 1]
    requires InArena(nodes', order')
    ensures forall i :: 0 <= i < |order'| ==>
      nodes'[order'[i]] == CharNode(text'[i], Slot(order', i - 1), Slot(order', i + 1))
  {
    forall i | 0 <= i < |order'|
      ensures nodes'[order'[i]] == CharNode(text'[i], Slot(order', i - 1), Slot(order', i + 1))
    {
      if i < c - 2 {
        assert order[i] != order[c - 2];
        assert c < |order| ==> order[i] != order[c];
      } else if i > c - 1 {
        assert order[i + 1] != order[c];
        assert c > 1 ==> order[i + 1] != order[c - 2];
      }
      DeletedNode(nodes, order, text, c, nodes', order', text', i);
    }
  }

  /** Unlinking the (c-1)-th node of the list removes the character before offset c. */
  lemma LinkedDelete(nodes: seq<CharNode>, order: seq<nat>, text: string, c: nat,
                     nodes': seq<CharNode>)
    requires Linked(nodes, order, text) && 0 < c <= |order|
    requires |nodes'| == |nodes|
    requires c > 1 ==> nodes'[order[c - 2]] == nodes[order[c - 2]].(next := Slot(order, c))
    requires c < |order| ==> nodes'[order[c]] == nodes[order[c]].(prev := Slot(order, c - 2))
    requires forall k :: 0 <= k < |nodes| && k != Slot(order, c - 2) && k != Slot(order, c) ==>
      nodes'[k] == nodes[k]
    ensures Linked(nodes', order[..c - 1] + order[c..], text[..c - 1] + text[c..])
  {
    var order', text' := order[..c - 1] + order[c..], text[..c - 1] + text[c..];
    DeletedOrder(order, c, order');
    assert forall i {:trigger text'[i]} :: 0 <= i < |text'| ==> text'[i] == if i < c - 1 then text[i] else text[i + 1];
    DeletedNodes(nodes, order, text, c, nodes', order', text');
  }

  /** The buffer's invariant, over the values of its fields: the arena holds
      a doubly-linked list spelling `text`, with `length` nodes, `head` and
      `tail` at its ends, and `cursor` naming the node just before offset `cur`. */
  ghost predicate BufferInv(nodes: seq<CharNode>, order: seq<nat>, text: string,
                            head: int, tail: int, cursor: int, cur: nat, length: int)
  {
    Linked(nodes, order, text) &&
    length == |text| && cur <= |text| &&
    head == Slot(order, 0) && tail == Slot(order, |order| - 1) &&
    cursor == Slot(order, cur - 1)
  }

  /** insertChar keeps the invariant: the new node is linked in at the cursor
      and becomes the cursor node. */
  lemma InsertKeepsInv(nodes: seq<CharNode>, order: seq<nat>, text: string,
                       head: int, tail: int, cursor: int, cur: nat, length: int, ch: char,
                       nodes': seq<CharNode>, order': seq<nat>, text': string,
                       head': int, tail': int, cursor': int, cur': nat, length': int)
    requires BufferInv(nodes, order, text, head, tail, cursor, cur, length)
    requires |nodes'| == |nodes| + 1
    requires nodes'[|nodes|] == CharNode(ch, Slot(order, cur - 1), Slot(order, cur))
    requires cur > 0 ==> nodes'[order[cur - 1]] == nodes[order[cur - 1]].(next := |nodes|)
    requires cur < |order| ==> nodes'[order[cur]] == nodes[order[cur]].(prev := |nodes|)
    requires forall k :: 0 <= k < |nodes| && k != Slot(order, cur - 1) && k != Slot(order, cur) ==>
      nodes'[k] == nodes[k]
    requires order' == order[..cur] + [|nodes|] + order[cur..]
    requires text' == text[..cur] + [ch] + text[cur..]
    requires head' == if cur == 0 then |nodes| else head
    requires tail' == if cur == |order| then |nodes| else tail
    requires cursor' == |nodes| && cur' == cur + 1 && length' == length + 1
    ensures BufferInv(nodes', order', text', head', tail', cursor', cur', length')
  {
    LinkedInsert(nodes, order, text, cur, ch, nodes');
    InsertedOrder(order, cur, |nodes|, order');
  }

  /** deleteBeforeCursor keeps the invariant: the cursor node is unlinked and
      its predecessor becomes the cursor node. */
  lemma DeleteKeepsInv(nodes: seq<CharNode>, order: seq<nat>, text: string,
                       head: int, tail: int, cursor: int, cur: nat, length: int,
                       nodes': seq<CharNode>, order': seq<nat>, text': string,
                       head': int, tail': int, cursor': int, cur': nat, length': int)
    requires BufferInv(nodes, order, text, head, tail, cursor, cur, length) && cur > 0
    requires |nodes'| == |nodes|
    requires cur > 1 ==> nodes'[order[cur - 2]] == nodes[order[cur - 2]].(next := Slot(order, cur))
    requires cur < |order| ==> nodes'[order[cur]] == nodes[order[cur]].(prev := Slot(order, cur - 2))
    requires forall k :: 0 <= k < |nodes| && k != Slot(order, cur - 2) && k != Slot(order, cur) ==>
      nodes'[k] == nodes[k]
    requires order' == order[..cur - 1] + order[cur..]
    requires text' == text[..cur - 1] + text[cur..]
    requires head' == if cur == 1 then Slot(order, cur) else head
    requires tail' == if cur == |order| then Slot(order, cur - 2) else tail
    requires cursor' == Slot(order, cur - 2) && cur' == cur - 1 && length' == length - 1
    ensures BufferInv(nodes', order', text', head', tail', cursor', cur', length')
  {
    LinkedDelete(nodes, order, text, cur, nodes');
    DeletedOrder(order, cur, order');
  }

  // ---------- EditorBuffer ----------

  class EditorBuffer {
    var nodes: seq<CharNode>
    var head: int
    var tail: int
    /** The cursor sits just after this node; Null means before the first character. */
    var cursor: int
    var length: int

    ghost var Text: string
    ghost var Cur: nat
    /** The arena indices of the list's nodes, first to last. */
    ghost var Order: seq<nat>

    ghost predicate Valid()
      reads this
    {
      BufferInv(nodes, Order, Text, head, tail, cursor, Cur, length)
    }

    ghost function State(): (st: TextState)
      reads this
      requires Valid()
      ensures st.Wf()
    {
      TextState(Text, Cur)
    }

    constructor ()
      ensures Valid() && State() == TextState([], 0)
    {
      nodes, head, tail, cursor, length := [], Null, Null, Null, 0;
      Text, Cur, Order := [], 0, [];
    }

    /** insertChar: returns the arena index of the new node, the new cursor. */
    method InsertChar(ch: char) returns (n: int)
      requires Valid()
      modifies this
      ensures Valid() && State() == Inserted(old(State()), ch)
      ensures length == old(length) + 1
      ensures n == cursor
    {
      var c := Cur;
      n := |nodes|;
      ghost var nodes0, order0, text0 := nodes, Order, Text;
      ghost var head0, tail0, cursor0, length0 := head, tail, cursor, length;
      if head == Null {
        nodes := nodes + [CharNode(ch, Null, Null)];
        head, tail := n, n;
      } else if cursor == Null {
        assert nodes[Order[0]] == CharNode(Text[0], Null, Slot(Order, 1));
        nodes := nodes + [CharNode(ch, Null, head)];
        nodes := nodes[head := nodes[head].(prev := n)];
        head := n;
      } else {
        assert nodes[Order[c - 1]] == CharNode(Text[c - 1], Slot(Order, c as int - 2), Slot(Order, c));
        var after := nodes[cursor].next;
        nodes := nodes + [CharNode(ch, cursor, after)];
        nodes := nodes[cursor := nodes[cursor].(next := n)];
        if after != Null {
          assert nodes[Order[c]] == nodes0[Order[c]];
          nodes := nodes[after := nodes[after].(prev := n)];
        } else {
          tail := n;
        }
      }
      cursor := n;
      length := length + 1;
      Order := order0[..c] + [n] + order0[c..];
      Text := text0[..c] + [ch] + text0[c..];
      Cur := c + 1;
      InsertKeepsInv(nodes0, order0, text0, head0, tail0, cursor0, c, length0, ch,
                     nodes, Order, Text, head, tail, cursor, Cur, length);
    }

    /** deleteBeforeCursor (backspace): returns the removed character, or the
        sentinel 0 when the cursor is at the start. */
    method DeleteBeforeCursor() returns (ch: char)
      requires Valid()
      modifies this
      ensures Valid()
      ensures old(Cur) == 0 ==> ch == 0 as char && State() == old(State()) && length == old(length)
      ensures old(Cur) > 0 ==> ch == old(Text)[old(Cur) - 1] && State() == Deleted(old(State()))
                               && length == old(length) - 1
    {
      if cursor == Null {
        return 0 as char;
      }
      var c := Cur;
      ghost var nodes0, order0, text0 := nodes, Order, Text;
      ghost var head0, tail0, cursor0, length0 := head, tail, cursor, length;
      assert nodes[Order[c - 1]] == CharNode(Text[c - 1], Slot(Order, c as int - 2), Slot(Order, c));
      var toDel := cursor;
      ch := nodes[toDel].c;
      var before := nodes[toDel].prev;
      var after := nodes[toDel].next;
      if before != Null {
        nodes := nodes[before := nodes[before].(next := after)];
      } else {
        head := after;
      }
      if after != Null {
        nodes := nodes[after := nodes[after].(prev := before)];
      } else {
        tail := before;
      }
      cursor := before;
      length := length - 1;
      Order := order0[..c - 1] + order0[c..];
      Text := text0[..c - 1] + text0[c..];
      Cur := c - 1;
      DeleteKeepsInv(nodes0, order0, text0, head0, tail0, cursor0, c, length0,
                     nodes, Order, Text, head, tail, cursor, Cur, length);
    }

    /** moveLeft: false, and nothing changes, exactly at the start. */
    method MoveLeft() returns (moved: bool)
      requires Valid()
      modifies this
      ensures Valid() && Text == old(Text) && nodes == old(nodes)
      ensures moved <==> old(Cur) > 0
      ensures Cur == if moved then old(Cur) - 1 else old(Cur)
    {
      if cursor == Null {
        return false;
      }
      cursor := nodes[cursor].prev;
      Cur := Cur - 1;
      return true;
    }

    /** moveRight: false, and nothing changes, exactly at the end. */
    method MoveRight() returns (moved: bool)
      requires Valid()
      modifies this
      ensures Valid() && Text == old(Text) && nodes == old(nodes)
      ensures moved <==> old(Cur) < |old(Text)|
      ensures Cur == if moved then old(Cur) + 1 else old(Cur)
    {
      if cursor == Null {
        if head != Null {
          cursor := head;
          Cur := 1;
          return true;
        }
        return false;
      }
      if nodes[cursor].next != Null {
        cursor := nodes[cursor].next;
        Cur := Cur + 1;
        return true;
      }
      return false;
    }

    /** getText: walks the list from the head. */
    method GetText() returns (s: string)
      requires Valid()
      ensures s == Text && |s| == length
    {
      s := [];
      var n := head;
      var k := 0;
      while n != Null
        invariant 0 <= k <= |Order|
        invariant n == Slot(Order, k)
        invariant s == Text[..k]
        decreases |Order| - k
      {
        s := s + [nodes[n].c];
        n := nodes[n].next;
        k := k + 1;
      }
    }

    /** getCursorIndex: counts the nodes up to and including the cursor node. */
    method GetCursorIndex() returns (idx: int)
      requires Valid()
      ensures idx == Cur && 0 <= idx <= length
    {
      idx := 0;
      var n := head;
      while n != Null && n != cursor
        invariant 0 <= idx <= |Order|
        invariant n == Slot(Order, idx)
        invariant forall j :: 0 <= j < idx ==> Order[j] != cursor
        decreases |Order| - idx
      {
        idx := idx + 1;
        n := nodes[n].next;
      }
      if cursor == Null {
        return 0;
      }
      return idx + 1;
    }

    /** getWordPrefixBeforeCursor: collects letters walking left from the
        cursor, then reverses and lower-cases them. */
    method GetWordPrefixBeforeCursor() returns (w: string)
      requires Valid()
      ensures w == WordPrefix(State())
    {
      if cursor == Null {
        WordPrefixIsMaximalRun(State(), 0);
        return "";
      }
      var sb: string := [];
      var walker := cursor;
      ghost var j := Cur;
      while walker != Null && IsLetter(nodes[walker].c)
        invariant 0 <= j <= Cur
        invariant walker == Slot(Order, j - 1)
        invariant sb == Reverse(Text[j..Cur])
        invariant forall i :: j <= i < Cur ==> IsLetter(Text[i])
        decreases j
      {
        assert Text[j - 1..Cur][1..] == Text[j..Cur];
        sb := sb + [nodes[walker].c];
        walker := nodes[walker].prev;
        j := j - 1;
      }
      WordPrefixIsMaximalRun(State(), j);
      ReverseReverse(Text[j..Cur]);
      w := Lower(Reverse(sb));
    }
  }
}
