# Piece table

A model of the piece table in `piece_table.c`, a text buffer that holds a
document as a doubly linked chain of pieces between two sentinel nodes.
Each piece is `(buffer, offset, len)` and points into one of two byte
stores: the read-only ORIGINAL store, filled from the loaded file, or the
append-only ADD store, which receives every inserted string. An edit never
copies text. It builds a replacement chain between fresh sentinels and
exchanges it with the part of the live chain it replaces (`pr_swap`). The
change (`old` range, `new` range) goes on the undo stack, and undo and
redo exchange the two chains again.

Layout, one module per file:

- `stores.dfy` (Stores): `struct buffer` as a class over an `array<byte>`, with `b_append` and its capacity-doubling loop.
- `pieces.dfy` (Pieces): `struct piece` as a value, `p_create_from`'s slice, and the bytes a piece or a list of pieces spells.
- `links.dfy` (Links): node links as two sequences `next` and `prev` indexed by node. It defines ranges, what it means for a range to hold a chain, and the exchange `pr_swap` performs, with its proofs.
- `counts.dfy` (Counts): occurrence counting, used to state that no node is in two chains.
- `history.dfy` (History): `struct change_stack` as a sequence of changes, top first, with `chs_push`, `chs_pop`, `chs_swap` and `pt_save_change`. Each change is paired with the edit it records, as node chains.
- `steps.dfy` (Steps): exchanging the chains of a stack's top change, or of a new edit, keeps the links sound.
- `texts.dfy` (Texts): the text of a chain, and how the chains pt_insert and pt_delete build change it.
- `arena.dfy` (Arenas): the node heap as a class `Arena` whose fields `piece`, `next` and `prev` the methods update in place. Node creation, `pr_create_empty`, `pr_append_piece`, `pr_is_empty`, `pr_swap` and `p_find` live here.
- `states.dfy` (States): the values of a whole table (`State`), its invariant `Inv`, and the states that undo, redo, load and insert leave.
- `deletes.dfy` (Deletions): the same for `pt_delete`.
- `table.dfy` (Tables): `struct PieceTable` as the class `PieceTable`, with `pt_create`, `pt_load_from_file` (given the file's bytes), `pt_insert`, `pt_delete`, `pt_undo` and `pt_redo`.
- `findings.dfy` (Findings): the defects listed under Findings, as written.

Each class method is proved against a function on `State`. `Content()` is the document. `UndoTexts()` and `RedoTexts()` are the documents that successive undos and redos bring back. `len` is kept equal to the length of the document. The source assigns `len` only in `pt_create` (piece_table.c:251; see Findings). The model keeps it by walking the live chain after every exchange (`Arenas.Arena.ChainLength`), so each edit, undo and redo costs one extra pass over the pieces. `Valid()` states `len == |Content()|`.

## Model

| member | source | states |
|---|---|---|
| Stores.Grown | piece_table.c:71-74 | the capacity the doubling loop ends with holds the needed bytes; it is the old capacity when that suffices, otherwise below twice the need; it is the old capacity doubled some number of times |
| Stores.Buffer.Empty | piece_table.c:49-55 | b_create_empty: an empty store with the given capacity |
| Stores.Buffer.ReadOnly | piece_table.c:56-62 | b_create_readonly: a store holding the given bytes, with capacity 0 |
| Stores.Buffer.Append | piece_table.c:67-79 | b_append: nothing changes for an empty string or a read-only store; otherwise the contents become the old contents followed by the string, and the capacity is the doubled one |
| Stores.Buffer.Grow | piece_table.c:71-76 | the doubling loop and realloc: the contents are kept and the capacity becomes Grown(capacity, need) |
| Pieces.SliceBytes | piece_table.c:98-108 | p_create_from(p, i, j), for inclusive bounds inside the piece, stays inside the store and spells bytes i to j of p |
| Pieces.SliceSplit | piece_table.c:365-379 | splitting a piece at o into [0, o-1] and [o, len-1] loses no byte and reorders none |
| Links.HoldsAppend | piece_table.c:136-143 | pr_append_piece's four link writes turn a range holding chain c into one holding c followed by the new node |
| Links.SwapHolds | piece_table.c:150-180 | after pr_swap each range holds the other's chain, empty chains included |
| Links.SwapSymmetric | piece_table.c:150-180 | exchanging pp with qq gives the same links as exchanging qq with pp |
| Links.SwapTwice | piece_table.c:150-180 | exchanging twice restores every link |
| History.Push | piece_table.c:192-195 | chs_push: the change is on top and the rest of the stack is unchanged |
| History.Pop | piece_table.c:197-204 | chs_pop: nothing on an empty stack; otherwise the top and the rest, which pushed back give the stack |
| History.Flip | piece_table.c:206-210 | chs_swap: the two ranges of the change exchanged |
| History.FlipFlip | piece_table.c:206-210 | swapping the ranges of a change twice gives the change back |
| History.PopPush | piece_table.c:192-204 | popping a pushed change gives that change and the former stack |
| History.Saved | piece_table.c:225-232 | pt_save_change: a change whose old range is the replaced border and whose new range is the fresh one goes on top of the undo stack |
| History.ReversedInverse | piece_table.c:206-210 | the edit a swapped change records is undone by the edit it recorded before, and swapping twice gives the edit back |
| Arenas.Arena.CreateWith | piece_table.c:88-97 | p_create_with: a fresh node with the given record and links; no other node changes |
| Arenas.Arena.CreateFrom | piece_table.c:101-108 | p_create_from: a fresh node whose record is the slice [i, j] of node p, which is left untouched |
| Arenas.Arena.CreateEmpty | piece_table.c:111-118 | pr_create_empty: two fresh sentinels, head followed by tail, holding the empty chain; no earlier link changes |
| Arenas.Arena.IsEmptyIff | piece_table.c:144-149 | a range is empty (head followed by tail) if and only if it holds no chain |
| Arenas.Arena.AppendPiece | piece_table.c:136-143 | pr_append_piece: the node is linked in just before the tail, and the range holds its former chain followed by the node |
| Arenas.Arena.Swap | piece_table.c:150-180 | pr_swap: each range holds the other's former chain; no record changes and no node is created |
| Arenas.Arena.Exchange | piece_table.c:339-343 | pr_swap as pt_insert and pt_delete end with it and as pt_undo and pt_redo use it (piece_table.c:392, 400): the links become exactly the exchanged ones, and the length of the new live chain is returned |
| Arenas.Arena.Find | piece_table.c:82-87 | p_find: the node lies on the walk; the offset is the lengths of the nodes skipped plus the returned offset; that offset lies inside the node, or the node is the last one and the offset is 0 |
| Arenas.Arena.ChainLength | piece_table.c:17 | the running `len`, recomputed by walking the chain (the model's own means; see below the table): the sum of the lengths of a range's pieces |
| Arenas.Arena.BuildHead | piece_table.c:360-369 | pt_insert's fresh range, with the part of the found piece before the position when that is not empty |
| Arenas.Arena.BuildTail | piece_table.c:372-379 | pt_insert appends the new piece, then the rest of the found piece when the position is inside it |
| Arenas.Arena.BuildKept | piece_table.c:325-337 | pt_delete's fresh range, holding the kept head of the first piece and the kept tail of the last one, each only when not empty |
| Arenas.Arena.AppendCopy | piece_table.c:328-336 | p_create_from then pr_append_piece: the slice is linked in at the end of the fresh range, and the links of older nodes are kept |
| Texts.NewPieceText | piece_table.c:213-219 | the piece made for a string appended to the ADD store spells that string |
| Texts.InsertBetween | piece_table.c:361-372 | splicing the new piece in between two nodes inserts the string at the offset where they meet |
| Texts.InsertInside | piece_table.c:365-379 | replacing a piece by its head, the new piece and its tail inserts the string at that offset |
| Texts.KeptText | piece_table.c:327-337 | the kept pieces spell the first piece's bytes before the span followed by the last piece's bytes after it |
| Texts.DeleteSpan | piece_table.c:315-344 | replacing the spanned nodes by the kept pieces removes the n bytes from the span's start |
| States.InvLen | piece_table.c:17 | in a sound table `len` is the length of the text |
| States.EmptyInv | piece_table.c:245-253 | pt_create's table is sound and holds the empty text |
| States.LoadKeeps | piece_table.c:291-293 | loading keeps the table sound, puts the bytes after the text and grows `len` by their number |
| States.FindReady | piece_table.c:82-87 | p_find's walk from the head is linked, ends at the tail sentinel (empty, no successor), and its pieces add up to `len` |
| States.UndoKeeps | piece_table.c:388-395 | the top undo change's ranges hold disjoint chains, and undoing keeps the table sound |
| States.UndoText | piece_table.c:388-395 | undo brings back the most recent undo text, and the current text becomes the first redo text |
| States.RedoKeeps | piece_table.c:396-403 | the same for redo |
| States.RedoText | piece_table.c:396-403 | redo brings back the most recent redo text, and the current text becomes the first undo text |
| States.UndoRedo | piece_table.c:388-403 | undo followed by redo restores the whole state: links, stacks and text |
| States.CommitKeeps | piece_table.c:339-343 | exchanging a fresh chain into the live one, saving the change and emptying the redo stack keeps the table sound; the old text becomes the first undo text and there is nothing to redo |
| States.EditUndo | piece_table.c:388-395 | undoing a committed insert or delete restores the live chain, the text, `len` and the undo stack from before the edit |
| States.InsertFound | piece_table.c:351-363 | where p_find lands for an insertion: a live node when inside a piece, and the nodes around the replaced part |
| States.InsertKeeps | piece_table.c:346-386 | pt_insert keeps the table sound, inserts the string at the offset, and makes the old text the first undo text |
| Deletions.EndReady | piece_table.c:320-321 | the second p_find of pt_delete starts from a walk that meets p_find's needs and contains the last deleted byte |
| Deletions.DeleteFound | piece_table.c:319-324 | both ends of the span are inside live pieces, the first no later than the last; the border range is the nodes around them |
| Deletions.DeleteContent | piece_table.c:327-337 | the chain pt_delete leaves spells the text without the n bytes from the offset |
| Deletions.DeleteKeeps | piece_table.c:315-344 | pt_delete keeps the table sound, removes the n bytes from the offset, and makes the old text the first undo text |
| Tables.PieceTable.constructor | piece_table.c:245-253 | pt_create: empty text, empty stacks, `len` 0, no original bytes and an empty ADD store of the initial capacity, so that pt_load_from_file can follow |
| Tables.PieceTable.Load | piece_table.c:283-293 | pt_load_from_file on the file's bytes: the table is in the state Loaded gives |
| Tables.PieceTable.Insert | piece_table.c:346-386 | pt_insert: no change for an empty string or an offset past the end of the text; otherwise the string appears at the offset, the old text is the first undo text, and the redo stack is empty |
| Tables.PieceTable.InsertAt | piece_table.c:350-386 | pt_insert past its guard |
| Tables.PieceTable.InsertFoundAt | piece_table.c:360-386 | the rest of pt_insert once p_find has found the position |
| Tables.PieceTable.BuildInsert | piece_table.c:360-379 | the replacement range pt_insert builds, with the new string appended to the ADD store |
| Tables.PieceTable.CreatePieceFromString | piece_table.c:213-220 | pt_create_piece_from_string: no piece for an empty string; otherwise the string is appended to the ADD store and a fresh node covers exactly those bytes |
| Tables.PieceTable.CommitChange | piece_table.c:339-343 | pr_swap, pt_save_change and pt_free_redo_stack: the table is in the committed state and sound |
| Tables.PieceTable.Delete | piece_table.c:315-344 | pt_delete: no change for an empty span, an empty table or a span past the end; otherwise the n bytes from the offset are gone, the old text is the first undo text, and the redo stack is empty |
| Tables.PieceTable.DeleteAt | piece_table.c:319-344 | pt_delete past its guard |
| Tables.PieceTable.DeleteFrom | piece_table.c:321-344 | pt_delete after its first p_find |
| Tables.PieceTable.DeleteFoundAt | piece_table.c:323-344 | pt_delete once both ends are found |
| Tables.PieceTable.BuildDelete | piece_table.c:323-337 | the replacement range pt_delete builds; the stores and the rest of the table are unchanged |
| Tables.PieceTable.Undo | piece_table.c:388-395 | pt_undo: no change on an empty undo stack; otherwise the state Undone gives |
| Tables.PieceTable.UndoTop | piece_table.c:391-394 | chs_pop, pr_swap, chs_swap and chs_push onto the redo stack |
| Tables.PieceTable.Redo | piece_table.c:396-403 | pt_redo: no change on an empty redo stack; otherwise the state Redone gives |
| Tables.PieceTable.RedoTop | piece_table.c:399-402 | chs_pop, pr_swap, chs_swap and chs_push onto the undo stack |
| Findings.IsEmptyMisjudges | piece_table.c:147-149 | pr_is_empty as written calls a one-piece range empty, and an empty range not empty |
| Findings.SwapLosesPiece | piece_table.c:171-179 | once `pr_is_empty` is corrected (piece_table.c:148), pr_swap as written loses the piece when a one-piece range is exchanged with an empty one; with `pr_is_empty` as written, the same exchange leaves pp's tail linked back to qq's head |
| Findings.SwapAsWrittenLosesPiece | piece_table.c:158-180 | with pr_is_empty as written too, exchanging two one-piece ranges loses one piece |
| Findings.AppendLosesBytes | piece_table.c:77-78 | b_append as written stores what the block held, not the appended bytes |
| Findings.NewPieceOutside | piece_table.c:217-218 | the piece made as written reaches past the end of the ADD store |
| Findings.InsertGuardWrong | piece_table.c:347-348 | pt_insert's guard as written refuses a valid offset and lets through one past the end |
| Findings.LenGoesStale | piece_table.c:251 | with `len` never updated, loading a non-empty file leaves `len` below the length of the text |
| Findings.FastPathAppends | piece_table.c:353-357 | the fast path appends the string at the end of the piece, whatever the offset |

## Left out

- `pt_load_from_file`: `open`, `fstat` and `mmap`, with their error exits, are replaced by a parameter holding the file's bytes. Load is modelled on a table with no original store and no history, the only state in which the source calls it.
- `pt_save_to_file`, `pt_print` and `main` write to file descriptors. They are I/O, not modelled.
- `pt_free`, `pr_free`, `chs_free` and `b_free` release memory. Nodes are never reclaimed in the model, and freeing the redo stack is modelled as emptying it. `chs_free` reads `chs->old` after `free(chs)` (piece_table.c:187-188). That use after free has no counterpart here.
- `realloc` and `memcpy` are modelled only by their effect: a store's contents grow at the end.
- Tables.PieceTable.Insert leaves out the fast path (piece_table.c:353-357). As written it ignores the offset inside the piece and records no change; see Findings.
- `pt_to_string` is commented out in the source (piece_table.c:306-313). `piece_table.h` only declares functions, and several of them (`pt_new`, `pt_load`, `pt_save`, `pt_byte_at`, `pt_codepoint_at`) have no body in `piece_table.c`.
- Integer widths: offsets and lengths are unbounded `nat`s. The source's `size_t` arithmetic (`begin.offset + len - 1`, `offset + len`) could wrap only for sizes near 2^64, which the model does not consider.
- Node addresses are indices into the arena. A `NULL` link is `Null` (-1).

## Findings

The model follows the intended behaviour in every row below. The as-written member exhibits the discrepancy on the input shown.

| source | as written | input that shows it | evidently intended | confidence | as-written member | corrected member |
|---|---|---|---|---|---|---|
| piece_table.c:147-149 | `pr_is_empty` tests `head->next == tail->prev` | a range holding one piece x: both links are x, so it is called empty; an empty range with distinct sentinels is called non-empty | empty when the head is followed by the tail, as `pr_create_empty` sets it up (piece_table.c:115-116) | high, not executed | Findings.IsEmptyMisjudges | Arenas.Arena.IsEmptyIff |
| piece_table.c:171 | `pr_swap` tests `pp` for emptiness after `pp` has received `qq`'s chain | once `pr_is_empty` is corrected (piece_table.c:148): pp (0, 1) holding node 2, qq (3, 4) empty, so qq stays empty and node 2 is lost (with `pr_is_empty` as written, qq gets node 2 but pp's tail keeps its `prev` on qq's head) | decide with the saved `pp_head_next` / `pp_tail_prev`, so that qq receives pp's former chain (piece_table.c:155-156) | high, not executed | Findings.SwapLosesPiece | Arenas.Arena.Swap |
| piece_table.c:162-171 | both tests together, with `pr_is_empty` as written | pp holding node 2, qq holding node 5: pp ends empty and node 5 is lost | each range holds the other's chain | high, not executed | Findings.SwapAsWrittenLosesPiece | Links.SwapHolds |
| piece_table.c:77-78 | `len` grows first, then `memcpy(string, b->data + b->len, len)` copies from the store into the caller's string | appending byte 1 to an empty store whose block holds 0 there stores 0 | copy the string into the store at the old `len` | high, not executed | Findings.AppendLosesBytes | Stores.Buffer.Append |
| piece_table.c:217-218 | the new piece's offset is the ADD store's length read after the append | any non-empty string: the piece reaches past the end of the store | the length before the append | high, not executed | Findings.NewPieceOutside | Texts.NewPieceText |
| piece_table.c:347 | `offset > len` compares with the string's length | inserting 1 byte at offset 5 of a 10-byte text is refused; inserting 3 bytes at offset 3 of a 2-byte text goes through | `offset > pt->len` | high, not executed | Findings.InsertGuardWrong | Tables.PieceTable.Insert |
| piece_table.c:251 | `pt->len` is set only in `pt_create`; load, insert and delete never update it | after loading a non-empty file `len` is 0, so `pt_delete`'s guard refuses every deletion | `len` is the length of the text | high, not executed | Findings.LenGoesStale | States.LoadKeeps |
| piece_table.c:353-357 | the fast path appends to a piece that ends at the end of the ADD store, ignoring the offset inside it | text [1, 2] held by one ADD piece; inserting 9 at offset 0 gives [1, 2, 9] | insert at the offset and record a change, as the general path does | medium, not executed | Findings.FastPathAppends | Tables.PieceTable.Insert |
