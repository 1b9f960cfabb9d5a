/** EditorController of TextEditorDSProject.java: the buffer, the
    autocomplete trie and the undo and redo stacks, tied together.

    Every edit or move pushes onto the undo stack the operation that undoes
    it; undoing applies that operation and pushes onto the redo stack the
    operation that undoes the undo. The ghost trails record the text
    states each stack leads through (Operations.Chain): trail[0] is the
    current state and trail[i + 1] the state reached by applying the i-th
    stacked operation in trail[i]. */
module Editor {
  import opened Chars
  import opened Containers
  import opened Buffer
  import opened Operations
  import opened Trie

  class EditorController {
    const buf: EditorBuffer
    const ac: Autocomplete
    const undo: SimpleStack<Op>
    const redo: SimpleStack<Op>

    ghost var UndoTrail: seq<TextState>
    ghost var RedoTrail: seq<TextState>

    ghost predicate Valid()
      reads this, buf, ac, undo, redo
    {
      ac.Valid() && HistoryValid()
    }

    /** The buffer and both histories, which the dictionary does not affect. */
    ghost predicate HistoryValid()
      reads this, buf, undo, redo
    {
      buf.Valid() && undo.Valid() && redo.Valid() && undo != redo &&
      Chain(undo.Contents, UndoTrail) && Chain(redo.Contents, RedoTrail) &&
      UndoTrail[0] == buf.State() && RedoTrail[0] == buf.State()
    }

    /** The current text and cursor. */
    ghost function State(): (st: TextState)
      reads this, buf, ac, undo, redo
      requires Valid()
      ensures st.Wf() && NulFree(st)
    {
      buf.State()
    }

    /** An empty buffer, an empty dictionary and empty histories. */
    constructor ()
      ensures Valid() && fresh(buf) && fresh(ac) && fresh(undo) && fresh(redo)
      ensures State() == TextState([], 0) && ac.Words == {}
      ensures undo.Contents == [] && redo.Contents == []
    {
      buf := new EditorBuffer();
      ac := new Autocomplete();
      undo := new SimpleStack();
      redo := new SimpleStack();
      UndoTrail := [TextState([], 0)];
      RedoTrail := [TextState([], 0)];
    }

    /** typeChar: inserts c at the cursor, records a delete to undo it and
        forgets the redo history. The character 0 is excluded: backspace
        takes a deleted 0 for "nothing deleted". */
    method TypeChar(c: char)
      requires Valid() && c != 0 as char
      modifies this, buf, undo, redo
      ensures Valid()
      ensures State() == Inserted(old(State()), c)
      ensures undo.Contents == [Delete(0 as char)] + old(undo.Contents) && redo.Contents == []
      ensures UndoTrail == [State()] + old(UndoTrail)
    {
      ghost var st0 := State();
      var done := Apply(Insert(c), buf);
      undo.Push(Inverse(done));
      redo.Clear();
      InverseUndoes(Insert(c), st0);
      assert buf.State().text == st0.text[..st0.cursor] + [c] + st0.text[st0.cursor..];
      ChainPush(Inverse(done), buf.State(), old(undo.Contents), UndoTrail);
      UndoTrail := [buf.State()] + UndoTrail;
      RedoTrail := [buf.State()];
    }

    /** backspace: deletes the character before the cursor. Only when one
        was deleted is the insert that undoes it recorded and the redo
        history forgotten; at the start of the text nothing changes. */
    method Backspace()
      requires Valid()
      modifies this, buf, undo, redo
      ensures Valid()
      ensures old(State()).cursor == 0 ==>
        State() == old(State()) && undo.Contents == old(undo.Contents) && redo.Contents == old(redo.Contents) &&
        UndoTrail == old(UndoTrail) && RedoTrail == old(RedoTrail)
      ensures old(State()).cursor > 0 ==>
        State() == Deleted(old(State())) &&
        undo.Contents == [Insert(old(State()).text[old(State()).cursor - 1])] + old(undo.Contents) &&
        redo.Contents == [] && UndoTrail == [State()] + old(UndoTrail)
    {
      ghost var st0 := State();
      var done := Apply(Delete(0 as char), buf);
      assert st0.cursor > 0 ==> st0.text[st0.cursor - 1] in st0.text;
      if done.deleted != 0 as char {
        undo.Push(Inverse(done));
        redo.Clear();
        InverseUndoes(Delete(0 as char), st0);
        assert buf.State().text == st0.text[..st0.cursor - 1] + st0.text[st0.cursor..];
        ChainPush(Inverse(done), buf.State(), old(undo.Contents), UndoTrail);
        UndoTrail := [buf.State()] + UndoTrail;
        RedoTrail := [buf.State()];
      }
    }

    /** moveLeft: moves the cursor one place left when it can, and always
        records the operation that undoes the move (a NoOp when it did
        not move), forgetting the redo history. */
    method MoveLeft()
      requires Valid()
      modifies this, buf, undo, redo
      ensures Valid()
      ensures State() == if old(State()).cursor > 0 then old(State()).(cursor := old(State()).cursor - 1) else old(State())
      ensures undo.Contents == [if old(State()).cursor > 0 then Op.MoveRight(false) else NoOp] + old(undo.Contents)
      ensures redo.Contents == [] && UndoTrail == [State()] + old(UndoTrail)
    {
      ghost var st0 := State();
      var done := Apply(Op.MoveLeft(false), buf);
      undo.Push(Inverse(done));
      redo.Clear();
      InverseUndoes(Op.MoveLeft(false), st0);
      ChainPush(Inverse(done), buf.State(), old(undo.Contents), UndoTrail);
      UndoTrail := [buf.State()] + UndoTrail;
      RedoTrail := [buf.State()];
    }

    /** moveRight: the mirror image of moveLeft. */
    method MoveRight()
      requires Valid()
      modifies this, buf, undo, redo
      ensures Valid()
      ensures State() == if old(State()).cursor < |old(State()).text| then old(State()).(cursor := old(State()).cursor + 1) else old(State())
      ensures undo.Contents == [if old(State()).cursor < |old(State()).text| then Op.MoveLeft(false) else NoOp] + old(undo.Contents)
      ensures redo.Contents == [] && UndoTrail == [State()] + old(UndoTrail)
    {
      ghost var st0 := State();
      var done := Apply(Op.MoveRight(false), buf);
      undo.Push(Inverse(done));
      redo.Clear();
      InverseUndoes(Op.MoveRight(false), st0);
      ChainPush(Inverse(done), buf.State(), old(undo.Contents), UndoTrail);
      UndoTrail := [buf.State()] + UndoTrail;
      RedoTrail := [buf.State()];
    }

    /** undoOne: with an empty undo history nothing happens. Otherwise the
        state goes back to the one before the latest recorded action, and
        the state left behind becomes the first redo step. */
    method UndoOne()
      requires Valid()
      modifies this, buf, undo, redo
      ensures Valid()
      ensures old(undo.Contents) == [] ==>
        State() == old(State()) && undo.Contents == [] && redo.Contents == old(redo.Contents) &&
        UndoTrail == old(UndoTrail) && RedoTrail == old(RedoTrail)
      ensures old(undo.Contents) != [] ==>
        State() == old(UndoTrail)[1] && undo.Contents == old(undo.Contents)[1..] &&
        redo.Contents == [Inverse(Step(old(undo.Contents)[0], old(State())).0)] + old(redo.Contents) &&
        UndoTrail == old(UndoTrail)[1..] && RedoTrail == [State()] + old(RedoTrail)
    {
      var inv := undo.Pop();
      if inv.None? {
        return;
      }
      ghost var st0 := buf.State();
      ChainPop(old(undo.Contents), UndoTrail);
      var done := Apply(inv.value, buf);
      redo.Push(Inverse(done));
      InverseUndoes(inv.value, st0);
      ChainPush(Inverse(done), buf.State(), old(redo.Contents), RedoTrail);
      UndoTrail := UndoTrail[1..];
      RedoTrail := [buf.State()] + RedoTrail;
    }

    /** redoOne: the mirror image of undoOne, moving one step along the redo
        history and recording the way back on the undo history. */
    method RedoOne()
      requires Valid()
      modifies this, buf, undo, redo
      ensures Valid()
      ensures old(redo.Contents) == [] ==>
        State() == old(State()) && redo.Contents == [] && undo.Contents == old(undo.Contents) &&
        UndoTrail == old(UndoTrail) && RedoTrail == old(RedoTrail)
      ensures old(redo.Contents) != [] ==>
        State() == old(RedoTrail)[1] && redo.Contents == old(redo.Contents)[1..] &&
        undo.Contents == [Inverse(Step(old(redo.Contents)[0], old(State())).0)] + old(undo.Contents) &&
        RedoTrail == old(RedoTrail)[1..] && UndoTrail == [State()] + old(UndoTrail)
    {
      var op := redo.Pop();
      if op.None? {
        return;
      }
      ghost var st0 := buf.State();
      ChainPop(old(redo.Contents), RedoTrail);
      var done := Apply(op.value, buf);
      undo.Push(Inverse(done));
      InverseUndoes(op.value, st0);
      ChainPush(Inverse(done), buf.State(), old(undo.Contents), UndoTrail);
      RedoTrail := RedoTrail[1..];
      UndoTrail := [buf.State()] + UndoTrail;
    }

    /** addDictionaryWord: adds w to the autocomplete trie; nothing else changes. */
    method AddDictionaryWord(w: string)
      requires Valid()
      modifies ac
      ensures Valid()
      ensures ac.Words == if |w| == 0 then old(ac.Words) else old(ac.Words) + {Filter(Lower(w))}
    {
      ac.AddWord(w);
    }

    /** suggestions: the suggestions for the word being typed (the run of
        letters before the cursor, lower-cased); none when there is none. */
    method Suggestions(k: int) returns (out: SimpleStringList)
      requires Valid()
      ensures out.Valid() && fresh(out.Repr)
      ensures var p := WordPrefix(State());
        out.Contents == if p == [] then [] else SuggestSpec(ac.nodes, p, k)
    {
      var prefix := buf.GetWordPrefixBeforeCursor();
      if |prefix| == 0 {
        out := new SimpleStringList();
        return;
      }
      out := ac.Suggest(prefix, k);
    }

    /** The text printState shows: the cursor drawn as '|' at its position,
        so that removing the bar gives back the text. */
    method Render() returns (display: string)
      requires Valid()
      ensures |display| == |State().text| + 1 && display[State().cursor] == '|'
      ensures display[..State().cursor] + display[State().cursor + 1..] == State().text
    {
      var text := buf.GetText();
      var cursorIdx := buf.GetCursorIndex();
      var at := if cursorIdx < |text| then cursorIdx else |text|;
      if at < 0 {
        at := 0;
      }
      display := text[..at] + "|" + text[at..];
      assert display[..at] == text[..at] && display[at + 1..] == text[at..];
    }
  }

  /** Typing a character and undoing it gives back the text and cursor. */
  method TypeThenUndo(e: EditorController, c: char)
    requires e.Valid() && c != 0 as char
    modifies e, e.buf, e.undo, e.redo
    ensures e.Valid() && e.State() == old(e.State())
    ensures e.redo.Contents == [Insert(c)]
  {
    e.TypeChar(c);
    e.UndoOne();
  }

  /** Typing, undoing and redoing ends with the character typed. */
  method TypeUndoRedo(e: EditorController, c: char)
    requires e.Valid() && c != 0 as char
    modifies e, e.buf, e.undo, e.redo
    ensures e.Valid() && e.State() == Inserted(old(e.State()), c)
  {
    e.TypeChar(c);
    e.UndoOne();
    e.RedoOne();
  }

  /** After a fresh action the redo history is empty, so redo does nothing. */
  method TypeThenRedo(e: EditorController, c: char)
    requires e.Valid() && c != 0 as char
    modifies e, e.buf, e.undo, e.redo
    ensures e.Valid() && e.State() == Inserted(old(e.State()), c) && e.redo.Contents == []
  {
    e.TypeChar(c);
    e.RedoOne();
  }

  /** Deleting a character and undoing gives back the text and cursor. */
  method BackspaceThenUndo(e: EditorController)
    requires e.Valid() && e.State().cursor > 0
    modifies e, e.buf, e.undo, e.redo
    ensures e.Valid() && e.State() == old(e.State())
  {
    e.Backspace();
    e.UndoOne();
  }

  /** A move, whether or not the cursor could move, is undone by undo. */
  method MoveLeftThenUndo(e: EditorController)
    requires e.Valid()
    modifies e, e.buf, e.undo, e.redo
    ensures e.Valid() && e.State() == old(e.State())
  {
    e.MoveLeft();
    e.UndoOne();
  }

  method MoveRightThenUndo(e: EditorController)
    requires e.Valid()
    modifies e, e.buf, e.undo, e.redo
    ensures e.Valid() && e.State() == old(e.State())
  {
    e.MoveRight();
    e.UndoOne();
  }

  /** With something to undo, undoing and then redoing gives back the text
      and cursor and leaves the redo history as it was. */
  method UndoThenRedo(e: EditorController)
    requires e.Valid() && e.undo.Contents != []
    modifies e, e.buf, e.undo, e.redo
    ensures e.Valid() && e.State() == old(e.State())
    ensures e.RedoTrail == old(e.RedoTrail) && e.redo.Contents == old(e.redo.Contents)
  {
    e.UndoOne();
    e.RedoOne();
  }
}
