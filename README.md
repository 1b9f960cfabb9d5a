# Text editor engine, modelled and verified in Dafny

This project models the in-memory editing engine of `TextEditorDSProject.java` and proves
properties of it. The engine has four parts:

- **The character buffer** (`EditorBuffer`, `buffer.dfy`). It is a doubly-linked list of characters with a
  cursor that sits just after a node, or before the first character when it is null. It supports inserting at the
  cursor, backspace, moving left and right, reading the text and the cursor index, and extracting the
  word before the cursor.
- **The autocomplete trie** (`Autocomplete`, `trie.dfy`, `trie_laws.dfy`). Each node has 28 children: `a`-`z`,
  space and apostrophe. Words are added lower-cased, and characters outside that alphabet are skipped.
  Suggestions are the first `k` words below the prefix's node, in depth-first, slot-index order.
- **Two hand-written containers** (`containers.dfy`). `SimpleStringList` is a doubling array of strings.
  `SimpleStack` is a linked LIFO stack.
- **Reversible operations and the controller** (`operations.dfy`, `editor.dfy`). Each edit or move
  records what it did when applied, and its inverse undoes that record. The controller keeps undo and
  redo stacks of inverses and clears redo on every fresh action.

How the model is built:

- **Buffer nodes live in an arena.** The nodes are a `seq<CharNode>` with integer links, and `-1`
  stands for null. Ghost fields give the text, the cursor offset and the list order of arena slots.
  `BufferInv` ties these to the links and to `length`: the cursor field names the node just before the
  offset, and `head` and `tail` are the ends of the list.
- **Trie nodes live in an arena too.** A child reference is an index into that sequence. Two ghost
  fields give the set of words stored and the string each node spells.
- **Each operation is a value.** An operation is a datatype value, and `Step` is its effect on the
  text state. `Apply` performs that effect on the buffer object.
- **Each history stack has a ghost trail.** The trail lists the text states the stack leads through,
  and the controller's invariant (`Chain`) makes every stacked operation undo exactly one step. The
  undo/redo round trips follow from that invariant.

## Model

| member | source | states |
|---|---|---|
| Chars.IsLetter | src/TextEditorDSProject.java:113 | the letter test that stops the backward walk, restricted to ASCII letters; `RunStart` and `LowerChar` state what it decides |
| Chars.LowerChar | src/TextEditorDSProject.java:117 | each upper-case ASCII letter becomes the lower-case letter at the same place in the alphabet, every other character is unchanged, and being a letter is preserved |
| Chars.Lower | src/TextEditorDSProject.java:143 | `toLowerCase` keeps the length and lower-cases each position |
| Chars.Reverse | src/TextEditorDSProject.java:117 | `StringBuilder.reverse` keeps the length; `ReverseAt` gives the character at each position |
| Chars.ReverseAt | src/TextEditorDSProject.java:117 | position k of the reversed string holds the character at position `|s| - 1 - k` |
| Chars.ReverseReverse | src/TextEditorDSProject.java:117 | reversing the collected letters twice gives them back, so the reversed builder is in text order |
| Buffer.RunStart | src/TextEditorDSProject.java:113-116 | the backward walk stops at the start of the maximal run of letters ending at the cursor: everything after it is a letter and the character before it (if any) is not |
| Buffer.WordPrefixIsMaximalRun | src/TextEditorDSProject.java:103-118 | the word prefix is the lower-cased maximal letter run ending at the cursor, whatever start of that run is given, and is empty at offset 0 |
| Buffer.InsertKeepsInv | src/TextEditorDSProject.java:22-43 | linking a new node in after the cursor node (or at the head) keeps the list spelling the new text, `length` equal to its size, and `head`, `tail` and `cursor` at the right nodes |
| Buffer.DeleteKeepsInv | src/TextEditorDSProject.java:46-61 | unlinking the cursor node keeps the list spelling the text without that character, with the predecessor as the new cursor |
| Buffer.EditorBuffer.constructor | src/TextEditorDSProject.java:19 | an empty buffer with the cursor at offset 0 |
| Buffer.EditorBuffer.InsertChar | src/TextEditorDSProject.java:22-43 | the text becomes `s[..c] + [ch] + s[c..]`, the cursor goes to `c + 1`, `length` grows by one, and the returned node is the new cursor node |
| Buffer.EditorBuffer.DeleteBeforeCursor | src/TextEditorDSProject.java:46-61 | at offset 0 it returns 0 and changes nothing; otherwise it returns `s[c-1]`, the text becomes `s[..c-1] + s[c..]`, the cursor `c - 1` and `length` drops by one |
| Buffer.EditorBuffer.MoveLeft | src/TextEditorDSProject.java:64-68 | returns false exactly at the start; the cursor moves by -1 exactly when it returns true; the text never changes |
| Buffer.EditorBuffer.MoveRight | src/TextEditorDSProject.java:71-78 | returns false exactly at the end; the cursor moves by +1 exactly when it returns true; the text never changes |
| Buffer.EditorBuffer.GetText | src/TextEditorDSProject.java:81-89 | the walk from the head returns the text, and its length is `length` |
| Buffer.EditorBuffer.GetCursorIndex | src/TextEditorDSProject.java:91-100 | the walk returns the cursor offset, which lies in `0..length` |
| Buffer.EditorBuffer.GetWordPrefixBeforeCursor | src/TextEditorDSProject.java:103-118 | the result is the word prefix: the lower-cased maximal letter run before the cursor, empty at the start |
| Containers.SimpleStringList.constructor | src/TextEditorDSProject.java:188 | an empty list over an array of capacity 4 |
| Containers.SimpleStringList.Add | src/TextEditorDSProject.java:189-196 | the contents become the old contents followed by `s`, so earlier elements keep their order; the capacity doubles exactly when the array was full |
| Containers.SimpleStringList.Size | src/TextEditorDSProject.java:197 | the number of strings added |
| Containers.SimpleStringList.Get | src/TextEditorDSProject.java:198 | the i-th string added |
| Containers.StackNode.constructor | src/TextEditorDSProject.java:202-205 | a cell whose content is its value above the content of the cell below |
| Containers.SimpleStack.constructor | src/TextEditorDSProject.java:207-208 | an empty stack |
| Containers.SimpleStack.Push | src/TextEditorDSProject.java:209 | the value goes on top of the old contents |
| Containers.SimpleStack.Pop | src/TextEditorDSProject.java:210-215 | on an empty stack it returns None (Java's null) and changes nothing; otherwise it returns the last value pushed and removes it |
| Containers.SimpleStack.IsEmpty | src/TextEditorDSProject.java:216 | true exactly when nothing is stacked |
| Containers.SimpleStack.Clear | src/TextEditorDSProject.java:217 | the stack becomes empty |
| Operations.Inverse | src/TextEditorDSProject.java:221-263 | an inverse is a fresh operation (a delete records 0, a move records false), and only NoOp is its own inverse |
| Operations.Step | src/TextEditorDSProject.java:226-263 | applying an operation keeps the state well formed; an insert adds one character, a delete removes one unless at the start, and moves keep the length |
| Operations.InverseUndoes | src/TextEditorDSProject.java:226-263 | the inverse of an applied operation restores the state if and only if the operation is not a delete at the start; the inverse is itself undoable |
| Operations.InsertUndone | src/TextEditorDSProject.java:229-241 | deleting before the cursor right after inserting gives back the text and cursor |
| Operations.DeleteUndone | src/TextEditorDSProject.java:238-241 | inserting the deleted character gives back the text and cursor |
| Operations.ChainReplay | src/TextEditorDSProject.java:305-311 | popping and applying every entry of a history stack ends in the oldest state it records |
| Operations.ChainPush | src/TextEditorDSProject.java:273-303 | pushing the inverse of an undoable step extends the history invariant |
| Operations.ChainPop | src/TextEditorDSProject.java:305-318 | popping an entry keeps the history invariant from the next state |
| Operations.Apply | src/TextEditorDSProject.java:229-261 | applying an operation to the buffer records what it did and changes the buffer exactly as `Step` says |
| Trie.IdxOf | src/TextEditorDSProject.java:134-139 | the slot lies in `-1..27`, and is non-negative exactly for `a`-`z`, space and apostrophe |
| Trie.SymOf | src/TextEditorDSProject.java:160 | the character collectWords appends for slot i is the one whose slot is i |
| Trie.SymOfIdxOf | src/TextEditorDSProject.java:134-139 | every alphabet character is the character of its own slot |
| Trie.Filter | src/TextEditorDSProject.java:145-147 | the kept characters are all in the alphabet, no more than the input, and a string entirely in the alphabet is kept whole |
| Trie.EmptyNode | src/TextEditorDSProject.java:122-129 | `new TrieNode()` has 28 null children and is not the end of a word |
| Trie.EmptyNodeHoldsNothing | src/TextEditorDSProject.java:122-129 | no word lies below a freshly created node |
| Trie.EnumFromEmpty | src/TextEditorDSProject.java:158-166 | the loop over child slots adds nothing when those slots are all null |
| Trie.Enum | src/TextEditorDSProject.java:155-167 | the depth-first order of collectWords: the node's own word first, then each child in slot order. `EnumSound`, `EnumComplete` and `EnumSorted` prove that it lists exactly the word suffixes below the node, in slot order, with no repeats |
| Trie.EnumFrom | src/TextEditorDSProject.java:158-166 | the words below child slots lo..27 in slot order, each starting with its slot's character (what `EnumFromSound` and `EnumFromSorted` prove of it) |
| Trie.Find | src/TextEditorDSProject.java:172-177 | the descent ends at a node of the trie or at null |
| Trie.FindAppend | src/TextEditorDSProject.java:172-177 | descending along `p + q` is descending along `p` and then along `q` |
| Trie.FindPath | src/TextEditorDSProject.java:145-150 | the node reached from i by s spells the path of i followed by s |
| Trie.FindExtends | src/TextEditorDSProject.java:148 | adding children keeps every existing path |
| Trie.AddChildKeeps | src/TextEditorDSProject.java:148 | creating a missing child keeps the trie's shape and word flags, and the child spells its parent's path plus the slot's character |
| Trie.MarkShape | src/TextEditorDSProject.java:151 | setting a word flag keeps every edge and adds the word the node spells |
| Trie.MarkWordKeeps | src/TextEditorDSProject.java:151 | marking the end node of the filtered word restores the trie invariant with that word added |
| Trie.DescendStep | src/TextEditorDSProject.java:145-150 | one step of addWord's descent keeps the current node equal to the node spelled by the filtered characters read so far |
| Trie.SuggestSpec | src/TextEditorDSProject.java:169-181 | suggest returns at most `max(k, 0)` strings |
| Trie.CollectedIsTraversal | src/TextEditorDSProject.java:155-167 | collectWords appends the first `k - size` strings of the depth-first traversal below the node, each spelled with the prefix |
| Trie.VisitIsTraversal | src/TextEditorDSProject.java:158-166 | the loop over child slots lo..27 appends the first strings of the traversal below those children |
| Trie.Autocomplete.constructor | src/TextEditorDSProject.java:132 | a trie holding only its root and no words |
| Trie.Autocomplete.AddWord | src/TextEditorDSProject.java:141-152 | an empty word changes nothing; otherwise the stored words gain the lower-cased word with the characters outside the alphabet removed, and the trie invariant is kept |
| Trie.Autocomplete.CollectWords | src/TextEditorDSProject.java:155-167 | the list ends as collectWords' recursion leaves it (`Collected`): the node's word, then the children in slot order, stopping once the list holds k strings. `CollectedIsTraversal` proves that this appends the first `k - size` strings of the depth-first traversal `Enum` below the node, each spelled with the prefix |
| Trie.Autocomplete.Suggest | src/TextEditorDSProject.java:169-182 | a fresh list holding nothing when the lower-cased prefix leaves the trie, and otherwise the first k traversal results, each spelled with the prefix as passed |
| TrieLaws.FindAlphabet | src/TextEditorDSProject.java:172-177 | a path that exists uses only alphabet characters |
| TrieLaws.LowerAlphabet | src/TextEditorDSProject.java:143 | lower-casing leaves a string of alphabet characters unchanged |
| TrieLaws.WordsExact | src/TextEditorDSProject.java:141-152 | a string is a stored word if and only if its path ends at a word node; every stored word is lower-case and inside the alphabet |
| TrieLaws.EnumSound | src/TextEditorDSProject.java:155-167 | every suffix the traversal below a node yields leads to a word node |
| TrieLaws.EnumComplete | src/TextEditorDSProject.java:155-167 | every suffix that leads to a word node is yielded by the traversal |
| TrieLaws.EnumFromContains | src/TextEditorDSProject.java:158-166 | the words below a child appear in the loop's results |
| TrieLaws.LessIrreflexive | src/TextEditorDSProject.java:158 | the traversal order never puts a string before itself |
| TrieLaws.SortedDistinct | src/TextEditorDSProject.java:158 | a list in traversal order has no repeated strings |
| TrieLaws.PrefixedSorted | src/TextEditorDSProject.java:161 | putting the same character in front keeps the order |
| TrieLaws.SortedAppend | src/TextEditorDSProject.java:158-166 | children visited in increasing slot order give ordered results |
| TrieLaws.EnumSorted | src/TextEditorDSProject.java:155-167 | the traversal yields suffixes in slot order, a proper prefix first (so "car" before "cat") |
| TrieLaws.DistinctBound | src/TextEditorDSProject.java:155-167 | distinct strings drawn from a set are no more than the set's size |
| TrieLaws.EnumInWords | src/TextEditorDSProject.java:155-167 | the path of p followed by any traversal suffix below its node is a stored word |
| TrieLaws.WordBelowIn | src/TextEditorDSProject.java:155-167 | a word node below the node of p spells a stored word starting with p |
| TrieLaws.EnumBound | src/TextEditorDSProject.java:155-167 | no more suffixes lie below a node than words are stored |
| TrieLaws.SuggestSound | src/TextEditorDSProject.java:169-181 | every suggestion is the prefix as passed followed by a suffix that completes the lower-cased prefix to a stored word |
| TrieLaws.SuggestComplete | src/TextEditorDSProject.java:169-181 | with k at least the number of stored words, every stored word extending the lower-cased prefix is suggested (as prefix plus its remainder) |
| TrieLaws.SuggestHas | src/TextEditorDSProject.java:179-181 | a traversal suffix is suggested when the traversal holds at most k suffixes |
| TrieLaws.SuggestOrdered | src/TextEditorDSProject.java:155-167 | suggestions come in traversal order and none repeats |
| TrieLaws.SuggestOutsideAlphabet | src/TextEditorDSProject.java:172-175 | a prefix with a character outside the alphabet, after lower-casing, gets no suggestions |
| TrieLaws.SuggestNoMatch | src/TextEditorDSProject.java:176 | a prefix that no stored word extends gets no suggestions |
| TrieLaws.SuggestWordFirst | src/TextEditorDSProject.java:156 | a stored word used as the prefix is its own first suggestion |
| Editor.EditorController.constructor | src/TextEditorDSProject.java:266-270 | an empty buffer, an empty dictionary and empty histories |
| Editor.EditorController.TypeChar | src/TextEditorDSProject.java:273-278 | the character is inserted, one delete entry is pushed on undo, and redo is emptied |
| Editor.EditorController.Backspace | src/TextEditorDSProject.java:281-289 | at the start nothing changes and no history is pushed; otherwise the character is deleted, an insert of it is pushed on undo, and redo is emptied |
| Editor.EditorController.MoveLeft | src/TextEditorDSProject.java:291-296 | the cursor moves left when it can; exactly one undo entry is pushed (NoOp when it did not move), and redo is emptied |
| Editor.EditorController.MoveRight | src/TextEditorDSProject.java:298-303 | the cursor moves right when it can; exactly one undo entry is pushed (NoOp when it did not move), and redo is emptied |
| Editor.EditorController.UndoOne | src/TextEditorDSProject.java:305-311 | with an empty undo stack nothing changes; otherwise the state returns to the one before the latest action, and the inverse of what was undone is pushed on redo |
| Editor.EditorController.RedoOne | src/TextEditorDSProject.java:313-318 | with an empty redo stack nothing changes; otherwise the state moves to the one the undo left behind, and its inverse is pushed on undo |
| Editor.EditorController.AddDictionaryWord | src/TextEditorDSProject.java:321 | the dictionary gains the filtered, lower-cased word (nothing for an empty word) |
| Editor.EditorController.Suggestions | src/TextEditorDSProject.java:323-327 | no suggestions without a word before the cursor; otherwise suggest's result for that word |
| Editor.EditorController.Render | src/TextEditorDSProject.java:329-335 | the display has one more character than the text, the bar sits at the cursor offset, and removing it gives back the text |
| Editor.TypeThenUndo | src/TextEditorDSProject.java:273-311 | typing a character and undoing restores the text and cursor, leaving the insert on redo |
| Editor.TypeUndoRedo | src/TextEditorDSProject.java:273-318 | typing, undoing and redoing ends in the state right after the typing |
| Editor.TypeThenRedo | src/TextEditorDSProject.java:273-318 | after a fresh action redo does nothing |
| Editor.BackspaceThenUndo | src/TextEditorDSProject.java:281-311 | deleting a character and undoing restores the text and cursor |
| Editor.MoveLeftThenUndo | src/TextEditorDSProject.java:291-311 | a left move, whether or not it happened, is undone by undo |
| Editor.MoveRightThenUndo | src/TextEditorDSProject.java:298-311 | a right move, whether or not it happened, is undone by undo |
| Editor.UndoThenRedo | src/TextEditorDSProject.java:305-318 | with something to undo, undo then redo restores the state and the redo history |

## Left out

- `main`, the console command loop (src/TextEditorDSProject.java:341-382), is I/O and is not modelled.
- The `System.out.println` of `printState` is I/O. `Render` models only the string it prints after `"Text: "`.
- `EditorGUI.java` (Swing, file I/O, its own string-snapshot history) is not part of this model.
- `Character.isLetter` and `toLowerCase` are modelled for ASCII only. Unicode letters and case mappings are not modelled.
- `addWord(null)` is not modelled, because Dafny strings cannot be null. Only the empty-word case is.
- The unused `Autocomplete` and `SimpleStack` parameters of `Operation.apply` are dropped.
- Java `char` is a UTF-16 code unit, but a Dafny `char` cannot be a surrogate. A character outside the Basic Multilingual Plane, which Java's `charAt` would split into two surrogate nodes, cannot be represented in the buffer.
- Int overflow of `length`, of `size` and of `arr.length * 2` is not modelled. All counts are unbounded integers.
- Freed memory is not modelled: deleted buffer nodes stay in the arena unreachable, as garbage would in Java.
- Reference identity of nodes is not modelled. Buffer and trie nodes are arena slots addressed by index, not heap objects, so aliasing between them is not represented.
- Editor.EditorController.TypeChar: requires the typed character to differ from `'\0'`. A typed `'\0'` would later be deleted as if nothing had been removed (backspace takes 0 to mean "nothing deleted"), and the undo history would lose that step.
- Trie.Autocomplete.CollectWords: takes the trie arena as a parameter, because a Java node reference is here an index into it. It receives the prefix by value, because the Java `append`/`setLength` pair always restores the shared builder before returning.
- Trie.Autocomplete.CollectWords: its contract is stated through `Collected`, which follows the method's recursion. `CollectedIsTraversal` connects that to the depth-first traversal `Enum`.
- Containers.StackNode.constructor: takes the next cell as an argument. Java sets `n.next = top` right after construction, and the cell never changes afterwards.
