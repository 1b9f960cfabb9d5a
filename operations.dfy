/** The reversible edit operations of TextEditorDSProject.java (Operation and
    its subclasses InsertOp, DeleteOp, MoveLeftOp, MoveRightOp, NoOp).

    A Java operation object records what it did when it is applied (the
    deleted character, whether the cursor moved) and builds its inverse from
    that record. Here an operation is a value: applying one returns the value
    with its record filled in, and Inverse reads the record. */
module Operations {
  import opened Buffer

  datatype Op =
    | Insert(ch: char)
    | Delete(deleted: char)    // the removed character; 0 when nothing was removed
    | MoveLeft(moved: bool)
    | MoveRight(moved: bool)
    | NoOp

  /** inverse(): a fresh operation that undoes the recorded effect. A fresh
      DeleteOp records 0 and a fresh move records false until applied. */
  function Inverse(op: Op): (r: Op)
    ensures r.Delete? ==> r.deleted == 0 as char
    ensures (r.MoveLeft? || r.MoveRight?) ==> !r.moved
    ensures r == op <==> op.NoOp?
  {
    match op
    case Insert(_) => Delete(0 as char)
    case Delete(d) => Insert(d)
    case MoveLeft(m) => if m then MoveRight(false) else NoOp
    case MoveRight(m) => if m then MoveLeft(false) else NoOp
    case NoOp => NoOp
  }

  /** apply(), on the text state: the operation with its record filled in,
      and the new state. Whatever an unapplied operation recorded is ignored. */
  function Step(op: Op, st: TextState): (r: (Op, TextState))
    requires st.Wf()
    ensures r.1.Wf()
    ensures |r.1.text| == |st.text| + (if op.Insert? then 1 else if op.Delete? && st.cursor > 0 then -1 else 0)
  {
    match op
    case Insert(ch) => (op, Inserted(st, ch))
    case Delete(_) =>
      if st.cursor == 0 then (Delete(0 as char), st) else (Delete(st.text[st.cursor - 1]), Deleted(st))
    case MoveLeft(_) =>
      if st.cursor == 0 then (MoveLeft(false), st) else (MoveLeft(true), st.(cursor := st.cursor - 1))
    case MoveRight(_) =>
      if st.cursor == |st.text| then (MoveRight(false), st) else (MoveRight(true), st.(cursor := st.cursor + 1))
    case NoOp => (NoOp, st)
  }

  /** Applying op at st can be undone by its inverse: everything except a
      delete at the start, whose recorded 0 would make the inverse insert
      a character. */
  predicate Reversible(op: Op, st: TextState) {
    !(op.Delete? && st.cursor == 0)
  }

  /** The inverse of an applied operation restores the state exactly when the
      operation is reversible there, and is itself reversible afterwards. */
  lemma InverseUndoes(op: Op, st: TextState)
    requires st.Wf()
    ensures Reversible(Inverse(Step(op, st).0), Step(op, st).1)
    ensures Step(Inverse(Step(op, st).0), Step(op, st).1).1 == st <==> Reversible(op, st)
  {
    match op
    case Insert(ch) => InsertUndone(ch, st);
    case Delete(_) =>
      if st.cursor > 0 {
        DeleteUndone(st);
      } else {
        assert |Step(Inverse(Step(op, st).0), Step(op, st).1).1.text| == |st.text| + 1;
      }
    case MoveLeft(_) =>
    case MoveRight(_) =>
    case NoOp =>
  }

  lemma InsertUndone(ch: char, st: TextState)
    requires st.Wf()
    ensures Deleted(Inserted(st, ch)) == st
  {
    var st1 := Inserted(st, ch);
    var c := st.cursor;
    assert st1.text[..c] == st.text[..c];
    assert st1.text[c + 1..] == st.text[c..];
    assert st.text[..c] + st.text[c..] == st.text;
  }

  lemma DeleteUndone(st: TextState)
    requires st.Wf() && st.cursor > 0
    ensures Inserted(Deleted(st), st.text[st.cursor - 1]) == st
  {
    var st1 := Deleted(st);
    var c := st.cursor;
    assert st1.text[..c - 1] == st.text[..c - 1];
    assert st1.text[c - 1..] == st.text[c..];
    assert st.text[..c - 1] + [st.text[c - 1]] + st.text[c..] == st.text;
  }

  /** A buffer state the editor can be in: no character is the 0 that
      deleteBeforeCursor returns for "nothing removed". */
  ghost predicate NulFree(st: TextState) {
    0 as char !in st.text
  }

  // ---------- History ----------

  /** A history stack (top first) together with the states it leads through:
      states[0] is the current state, and applying ops[i] in states[i] is
      reversible and yields states[i + 1]. */
  ghost predicate Chain(ops: seq<Op>, states: seq<TextState>) {
    |states| == |ops| + 1 &&
    (forall i :: 0 <= i < |states| ==> states[i].Wf() && NulFree(states[i])) &&
    (forall i {:trigger ops[i]} :: 0 <= i < |ops| ==>
      Reversible(ops[i], states[i]) && Step(ops[i], states[i]).1 == states[i + 1])
  }

  /** The state reached by applying ops in turn, first to last. */
  function Replay(ops: seq<Op>, st: TextState): (r: TextState)
    requires st.Wf()
    ensures r.Wf()
  {
    if ops == [] then st else Replay(ops[1..], Step(ops[0], st).1)
  }

  /** Popping and applying every entry of a history stack, top first, ends in
      the oldest state it records. */
  lemma {:induction false} ChainReplay(ops: seq<Op>, states: seq<TextState>)
    requires Chain(ops, states)
    ensures Replay(ops, states[0]) == states[|ops|]
  {
    if ops != [] {
      assert Chain(ops[1..], states[1..]) by {
        assert forall i :: 0 <= i < |ops| - 1 ==> ops[1..][i] == ops[i + 1];
      }
      ChainReplay(ops[1..], states[1..]);
    }
  }

  /** Pushing an entry that leads from a new state st to the chain's current state. */
  lemma ChainPush(op: Op, st: TextState, ops: seq<Op>, states: seq<TextState>)
    requires Chain(ops, states) && st.Wf() && NulFree(st)
    requires Reversible(op, st) && Step(op, st).1 == states[0]
    ensures Chain([op] + ops, [st] + states)
  {
    var ops', states' := [op] + ops, [st] + states;
    forall i | 0 <= i < |ops'|
      ensures Reversible(ops'[i], states'[i]) && Step(ops'[i], states'[i]).1 == states'[i + 1]
    {
      if i > 0 {
        assert ops'[i] == ops[i - 1];
      }
    }
  }

  /** Popping an entry leaves a chain from the next state. */
  lemma ChainPop(ops: seq<Op>, states: seq<TextState>)
    requires Chain(ops, states) && ops != []
    ensures Chain(ops[1..], states[1..])
  {
    assert forall i :: 0 <= i < |ops| - 1 ==> ops[1..][i] == ops[i + 1];
  }

  /** Applying op to the buffer, as the controller does. */
  method Apply(op: Op, buf: EditorBuffer) returns (done: Op)
    requires buf.Valid()
    modifies buf
    ensures buf.Valid()
    ensures (done, buf.State()) == Step(op, old(buf.State()))
  {
    match op
    case Insert(ch) =>
      var _ := buf.InsertChar(ch);
      done := op;
    case Delete(_) =>
      var d := buf.DeleteBeforeCursor();
      done := Delete(d);
    case MoveLeft(_) =>
      var m := buf.MoveLeft();
      done := MoveLeft(m);
    case MoveRight(_) =>
      var m := buf.MoveRight();
      done := MoveRight(m);
    case NoOp =>
      done := NoOp;
  }
}
