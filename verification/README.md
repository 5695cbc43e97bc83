# The algorithmic cores of a small Unix userland

This project models the self-contained cores of a small Unix userland and proves what they are for.

* `names`, `var_tree`, `var_shape`, `var_store`, `var_table`: the variable and alias store of csh, an AVL tree
  with parent pointers and a header node. The heap is described by a tree value; the proofs about balance and
  order are on the value, and each relinking is shown to do the same to the heap.
* `ed_links`, `ed_moves`, `ed_log`, `ed_undo`, `ed_scratch`, `ed_buffer`, `ed_text`, `ed_laws`, `ed_session`, `ed_global`,
  `ed_history`: the buffer of ed. A ghost log of whole rings says what every entry of the undo stack stands for, and which
  detached nodes must keep their links. Above it the commands are shown to edit a sequence of strings, and whole
  sessions with undo to be those of a memory with two states.
* `slot_tree`, `cp_splay`, `cp_links`: the hard-link table of cp, splay trees of inodes for each device.
* `dd_text`, `dd_io`: the conversions of dd, a streaming machine over two buffers against a specification of
  the whole text (conv=block and conv=unblock of the dd utility in IEEE Std 1003.1-2017).
* `mode_bits`, `mode_text`, `mode_compile`, `mode_words`, `mode_laws`, `set_mode`: the symbolic modes of chmod, from the text to commands,
  through the optimiser, to the interpreter, and what each letter does to each bit.
* `job_table`, `job_shell`, `dir_ring`, `job_dirs`: the job table and the directory ring of csh, and the
  reference counts that join them. The table is a value with its invariant; the methods work on the list.
* `vis_code`, `vis_text`, `vis_io`: the visual encoding of csh, with a decoder.
* `csh_words`, `csh_grammar`, `csh_ranges`, `csh_reads`, `csh_unique`, `csh_leaves`, `csh_trees`, `csh_accept`,
  `csh_fill`, `csh_parse`: the command parser of csh. The grammar of the comments in parse.c is a relation between
  trees and ranges of words; it is shown to be unambiguous, to derive exactly the lines that a criterion on the words
  alone accepts, and the parser to accept exactly those.
* `expr_arith`: the 64-bit arithmetic of expr. `seqs` has what several of them need to say of sequences.

Input and output, signals, `fork`, `chdir`, `link`, pattern matching and regular expressions are parameters:
a read is any chunk, a write takes any part, SIGCHLD is one step, and what the kernel answers is an argument.
Allocation never fails. A freed object leaves a ghost set or sequence and is not touched again.

## Findings

* `chmod -X`: `setmode` emits the command that sets the execute bits whatever the operator is
  (`src/bin/chmod/setmode.c:306-309`). `ModeCompile.TakesXFails` gives the mode; `ModeCompile.FaithfulAction` says
  exactly for which actions the translation is right.
* `strnvis` returns 0 for a size of one, while its comment promises the length that is needed
  (`src/bin/csh/vis.c:148-153`, `167-207`).
* The comment on `vis` says nothing of it, but with VIS_NOSLASH the encoding can be ambiguous
  (`VisText.ClearIsClear`).
* `get_line_node_addr` returns 0 rather than an error for a node that is not in an empty buffer
  (`src/bin/ed/buf.c:151-163`).
* `move_lines` to where the lines already are takes them off the list of a global command
  (`src/bin/ed/main.c:1135-1174`).
* The overflow test of `*` in expr divides INT64_MIN by -1 when the operands are INT64_MIN and -1
  (`src/bin/expr/expr.c:309-313`).
* `syntax` skips every word that starts with an ampersand, so an and operator with nothing in front of it, at the
  start of a line or after a separator, is ignored (`src/bin/csh/parse.c:213-222`, `CshGrammar.OfSyntax`).
* Several redirections of the output are accepted outside a pipe, and the last file is taken, while the flags of all
  of them add up (`src/bin/csh/parse.c:560-587`, `CshGrammar.FlagsOf`).
* `di_count` is declared as a pointer (`src/bin/csh/dir.h:39`) and used as a number; the model counts.

## Model

| member | source | states |
|---|---|---|
| `Names.LessIsTotalOrder` | src/bin/csh/set.c:384-396 | The mixed comparison of names (signed difference of the first characters, then `Strcmp`) is a strict total order, so it can order a search tree. |
| `Names.LessIsPrecedes` | src/bin/csh/str.c:233-252 | The order letter by letter: a name stands before every longer one that begins with it, otherwise the first different character decides, and the empty name stands where its closing zero stands among the first characters. |
| `VarShape.RotateLeft` | src/bin/csh/set.c:595-600 | `rleft` relinks the heap so that exactly the turned subtree hangs where the old one did, with every parent pointer right. |
| `VarShape.RotateRight` | src/bin/csh/set.c:589-594 | `rright`, likewise. |
| `VarTree.RebalancedIsBalanced` | src/bin/csh/set.c:608-694 | For every node whose one child has grown or shrunk by one, the switch restores all balances to -1..1 equal to right height minus left height, dereferences only nodes that are there, and the stop test `(p->v_bal == 0) ^ d` fires exactly when the height is what it was before; otherwise it has changed by one. |
| `VarTree.RebalancedEntries` | src/bin/csh/set.c:608-694 | Rebalancing changes neither the entries nor their order. |
| `VarStore.BalanceStep` | src/bin/csh/set.c:608-694 | One turn of the loop on the heap: the balanced subtree is linked below the right parent, and the loop goes on exactly when the height there has changed. |
| `VarStore.Balance` | src/bin/csh/set.c:608-694 | The whole climb: it may stop early, and all balances, parent links and entries are right afterwards. |
| `VarTable.Table.Adrof1` | src/bin/csh/set.c:384-396 | Returns the entry of the latest `setq` not since unset, or null if there is none, in a number of steps s with Fib(s + 2) at most one more than the number of names. |
| `VarTable.Table.Setq` | src/bin/csh/set.c:433-456 | The table as a finite map: exactly the one name is bound anew, and the tree is ordered, balanced and linked both ways. |
| `VarTable.Table.Unsetv1` | src/bin/csh/set.c:499-538 | Exactly the one name is gone, in each of the cases (no right child, no left child, exchange with the last node of the left subtree), and the tree is ordered, balanced and linked both ways. |
| `VarTable.Table.Madrof` | src/bin/csh/set.c:370-381 | Returns an entry that matches, before which, letter by letter, no other matching name stands; null only if no name matches. |
| `VarTable.Table.LeastMatch` | src/bin/csh/set.c:474-486 | The search of `unset1` over the whole table: a name of the table that the pattern matches, and that stands, letter by letter, before every other one that it matches; none when it matches none. |
| `VarTable.Table.Unset1` | src/bin/csh/set.c:474-486 | Removes exactly the names that match, and counts them; the loop ends. |
| `VarTable.Table.Plist` | src/bin/csh/set.c:697-733 | Visits every entry once, with the parent links alone, and of any two the one whose name stands first letter by letter comes first, so `path` before `path2`. |
| `EdLinks.REQUE` | src/bin/ed/ed.h:126-127 | Links two nodes both ways. |
| `EdMoves.INSQUE` | src/bin/ed/ed.h:129-134 | Puts a node into the ring after another one; the rest of the ring stays. |
| `EdMoves.Requeue` | src/bin/ed/main.c:1163-1165 | The three relinkings of a move, which leave the nodes of both parts untouched but at their ends. |
| `EdScratch.Scratch.Put` | src/bin/ed/buf.c:88-132 | A text goes behind the scratch file, and its offset and length read it back. |
| `EdScratch.Scratch.Get` | src/bin/ed/buf.c:54-82 | Reads exactly the text at an offset, wherever the file position was. |
| `EdBuffer.Editor.AddLineNode` | src/bin/ed/buf.c:137-146 | Inserts after the current address, which becomes that of the new line; the cached cursor stays true. |
| `EdBuffer.Editor.GetLineNodeAddr` | src/bin/ed/buf.c:151-163 | Returns the address of a node of the ring. Of a node that is not in it, it returns an error, but 0 when the buffer is empty. |
| `EdBuffer.Editor.GetAddressedLineNode` | src/bin/ed/buf.c:168-195 | Returns the n-th node of the ring whichever of the four walks it takes, and leaves the cached pair true; past the last line it returns the last. |
| `EdBuffer.Editor.PushUndoStack` | src/bin/ed/undo.c:45-66 | Pushes the nodes at the two addresses. |
| `EdBuffer.Editor.AppendLines` | src/bin/ed/main.c:1049-1093 | The lines up to the single period are in the ring after the address, with their texts in the scratch file, and the undo stack records the one insertion. |
| `EdBuffer.Editor.JoinLines` | src/bin/ed/main.c:1098-1130 | The range is replaced by one new line with the joined text, and the undo stack records both steps. |
| `EdBuffer.Editor.MoveLines` | src/bin/ed/main.c:1135-1174 | The ring is the old one with the range after the address; a move to where the lines are changes and records nothing, but still takes them off the active list. |
| `EdBuffer.Editor.CopyLines` | src/bin/ed/main.c:1179-1210 | New lines that share the texts of the range are in the ring after the address, also when that is inside the range, and the undo stack records one insertion. |
| `EdBuffer.Editor.DeleteLines` | src/bin/ed/main.c:1215-1235 | Exactly the range leaves the ring; the removed lines keep the links that undo needs, their slots of the active list are empty, and the cached cursor stays true. |
| `EdUndo.UndoOne` | src/bin/ed/undo.c:95-117 | The relinking of one entry (or of a pair, for a move) makes the ring what it was before that change. |
| `EdUndo.Unwind` | src/bin/ed/undo.c:95-117 | The first loop walks back over the whole stack to the first ring, with every detached segment still linked as its own undoing needs. |
| `EdUndo.Reversed` | src/bin/ed/undo.c:118-120 | The swapping loop reverses the stack. |
| `EdUndo.StackOfUndone` | src/bin/ed/undo.c:95-120 | The stack with toggled types in reverse order is the undo stack of the undone changes; UMOV and VMOV count as one type. |
| `EdLog.LeadsBack` | src/bin/ed/undo.c:81-125 | The undone changes lead from the last ring back to the first, so that undo is also redo. |
| `EdBuffer.Editor.PopUndoStack` | src/bin/ed/undo.c:81-125 | Restores the first ring and exchanges the addresses, or changes nothing when there is nothing to undo; inside a global command the active list is cleared. |
| `EdBuffer.Editor.ClearUndoStack` | src/bin/ed/undo.c:130-146 | Frees each deleted line once, and only lines that are not in the buffer. |
| `EdSession.Execute` | src/bin/ed/main.c:497-895 | Each of append, change, delete, move, copy and join, told by the lines before, in and after its range, does to the texts of the buffer and the current address what it should; it is let through exactly when there are such parts (a copy also to an address inside its range), and otherwise nothing changes. |
| `EdSession.Run` | src/bin/ed/main.c:497-895 | A run of commands edits the texts by one command after the other, and the current address stays in the buffer. |
| `EdLaws.EditedObeys` | src/bin/ed/main.c:497-895 | So does the editing of a sequence of strings that the runs, the global commands and the sessions are proved against. |
| `EdLaws.ObeysOnce` | src/bin/ed/main.c:497-895 | And that determines the texts, the current address and the outcome of every command. |
| `EdLaws.RunObeys` | src/bin/ed/main.c:232-275 | A run of commands is one command after the other, each on what the ones before have left. |
| `EdSession.RunAndUndo` | src/bin/ed/undo.c:81-125 | After any run of commands since the stack was cleared, one undo restores the same nodes in the same order, their texts, the number of lines and the current address. |
| `EdSession.UndoTwice` | src/bin/ed/undo.c:81-125 | A second undo restores the edited state and the whole undo record: undo is its own inverse. |
| `EdGlobal.BuildActiveList` | src/bin/ed/glbl.c:48-75 | The active list holds exactly the matching lines of the range, in the order in which they stand in the buffer. |
| `EdBuffer.Editor.UnsetActiveNodes` | src/bin/ed/glbl.c:173-185 | Removes exactly the nodes of the range from the active list, though its index goes on from where it was. |
| `EdGlobal.NextActiveNode` | src/bin/ed/glbl.c:190-195 | Returns the next line that has not been removed, and null only when none is left. |
| `EdGlobal.ExecGlobal` | src/bin/ed/glbl.c:98-136 | The loop ends; every line it comes to is in the buffer, so that its address is found; lines come in their order, each at most once; those it does not come to have lost their slots. The texts are edited by the command lists of those lines one after the other, up to the first command that is out of range, which is when it fails; and the undo record leads back to the buffer and the addresses that it began with. |
| `EdGlobal.Global` | src/bin/ed/glbl.c:48-136 | The whole command: the lines it comes to are some of those that matched when it began, in that order, each at most once, and the others have lost their slots; the texts are edited by the command lists of as many lines as it comes to, and the undo record starts where it began. |
| `EdHistory.GlobalAndUndo` | src/bin/ed/undo.c:81-125 | One `u` after a global command brings back the same nodes in the same order, their texts, and the addresses. |
| `EdHistory.Take` | src/bin/ed/main.c:497-895 | One step of a session against a memory of two states: a command or a global command with its addresses in range saves the state it finds and edits the texts as `EdLaws.Obeys` says, one out of range changes nothing, not even what is saved, and `u` exchanges the two states. |
| `EdHistory.Session` | src/bin/ed/main.c:232-275 | Any session from the start of the editor on, of commands, global commands and `u` in any order: the texts of the buffer and the current address are at every moment those of the memory of two states. |
| `CpSplay.Join` | src/bin/cp/cp.c:268-271 | The last four assignments put the three trees together in order. |
| `CpSplay.Isplay` | src/bin/cp/cp.c:232-274 | Keeps the sequence of entries and never changes the links of the sentinel; the root is the key, if it is there, and otherwise splits the other entries around it. It ends because the middle tree shrinks. |
| `CpSplay.RootTells` | src/bin/cp/cp.c:277-283 | After a splay the root alone tells if the key is there. |
| `CpSplay.Ifind` | src/bin/cp/cp.c:277-283 | Finds the entry exactly when there is one. |
| `CpSplay.PutNeedsSplay` | src/bin/cp/cp.c:286-306 | The insert keeps the order if and only if the root splits the entries around the new key, that is, only right after a splay for it. |
| `CpSplay.Iput` | src/bin/cp/cp.c:286-306 | The insert on the heap is the insert on the tree. |
| `CpLinks.Links.Canlink` | src/bin/cp/cp.c:308-335 | Links exactly when device and inode were recorded before, to the recorded path; otherwise records the pair with this path. |
| `CpLinks.FirstPath` | src/bin/cp/cp.c:308-335 | What is recorded after any run is, for every pair seen, the path of the first file that had it. |
| `CpLinks.LinkAll` | src/bin/cp/cp.c:308-335 | In any run from an empty table each file is linked to the path of the first earlier file with its device and inode, or not at all if there is none. |
| `DdIo.Dd.WriteOut` | src/bin/dd/dd.c:1469-1531 | Any sequence of short and interrupted writes puts out exactly the bytes of the block, and counts them. |
| `DdIo.Dd.DdOut` | src/bin/dd/dd.c:1469-1531 | Nothing is lost between the buffer and the file, and less than a block stays in the buffer. |
| `DdIo.Dd.DoDef` | src/bin/dd/dd.c:351-377 | Every byte read so far, however it was read, has been translated once and in its place, and is put out or pending. |
| `DdIo.Dd.DoBlock` | src/bin/dd/dd.c:405-487 | The records of all complete lines have been put out, the unfinished line is in front of the input buffer, and the flag for a line that is being dropped implies that the buffer is empty; nothing is stored beyond the buffers as `setup` allocates them. |
| `DdIo.Dd.BlockClose` | src/bin/dd/dd.c:490-507 | What is left in the buffer becomes the last record. |
| `DdIo.Dd.DoUnblock` | src/bin/dd/dd.c:517-548 | The lines of all complete records have been put out, and the rest is in front of the input buffer, within the buffers as allocated. |
| `DdIo.Dd.UnblockClose` | src/bin/dd/dd.c:551-568 | What is left becomes the last line. |
| `DdIo.Run` | src/bin/dd/dd.c:1346-1466 | For every way the input is cut into reads, and any short writes, the output is what the conversion of the whole input should be, byte by byte: without records each byte by the table, once; with block one padded or cut record for each line; with unblock one line for each record, without the spaces at its end. The byte count is its length. |
| `DdIo.ConcatSplit` | src/bin/dd/dd.c:1346-1443 | How the input is cut into reads makes no difference. |
| `DdIo.TranslateTwice` | src/bin/dd/dd.c:351-377 | A run with one table and a run of the result with another is one run with the two composed. |
| `DdText.BlockIsBlocked` | src/bin/dd/dd.c:405-507 | The records, byte by byte: those of the line as far as there is room, and then spaces. |
| `DdText.UnblockIsUnblocked` | src/bin/dd/dd.c:517-568 | The lines, byte by byte: the record without the spaces at its end, and a newline; the last record may be short. |
| `DdText.UnblockOfBlock` | src/bin/dd/dd.c:405-568 | `unblock` undoes `block` if and only if every line is terminated, fits into cbs and has no trailing space. |
| `DdText.BlockOfUnblock` | src/bin/dd/dd.c:405-568 | `block` undoes `unblock` if and only if the stream is full records without newlines. |
| `DdText.RecordsLength` | src/bin/dd/dd.c:517-548 | Full records means that cbs divides the length. |
| `DdText.UnblockBrim` | src/bin/dd/dd.c:1240-1251 | The output buffer of unblock is tight: with less than a block pending, one record makes it obs + cbs bytes. |
| `DdIo.RoundTrip` | src/bin/dd/dd.c:1346-1466 | Two whole runs, block and then unblock, with any reads in both, give the text back exactly when its lines are neat. |
| `DdIo.RoundBack` | src/bin/dd/dd.c:1346-1466 | The same for unblock and then block. |
| `SetMode.GetMode` | src/bin/chmod/setmode.c:77-142 | The interpreter loop computes the meaning of the command list, for every mode. |
| `SetMode.Strtoul` | src/bin/chmod/setmode.c:173-216 | The longest run of octal digits and its value. |
| `SetMode.OctalFront` | src/bin/chmod/setmode.c:199-211 | That value, digit by digit from the front, each worth eight times the next. |
| `SetMode.ScanWho` | src/bin/chmod/setmode.c:217-237 | The users of a clause. |
| `SetMode.ScanPerms` | src/bin/chmod/setmode.c:244-312 | The commands that one action adds. |
| `ModeText.ShowParsed` | src/bin/chmod/setmode.c:213-321 | What the scanner accepts is the text of the clauses it finds. |
| `ModeText.Unambiguous` | src/bin/chmod/setmode.c:213-321 | A symbolic mode is accepted exactly when it spells some list of clauses, and then that is the only one. |
| `SetMode.AddCmd` | src/bin/chmod/setmode.c:144-157 | The commands of one `addcmd` go behind the others, in an array that grows first when fewer than three places are left; nothing that was stored changes. |
| `ModeCompile.AddMeans` | src/bin/chmod/setmode.c:334-374 | The commands of `addcmd` do to a mode what operator, users and bits ask for, with the umask when no users are given. |
| `ModeCompile.FaithfulAction` | src/bin/chmod/setmode.c:246-312 | Of actions with permission letters only or one copy letter only: the commands agree with the request for every mode if and only if the action does not take X away where it could matter. |
| `ModeCompile.TakesXFails` | src/bin/chmod/setmode.c:306-309 | A finding: for `-X` the code emits a command that sets the execute bits; the mode 0111 shows it. |
| `ModeCompile.ClausesMean` | src/bin/chmod/setmode.c:213-321 | Hence whole lists of clauses: running their commands is applying them one by one. |
| `ModeLaws.AskedOfUsers` | src/bin/chmod/setmode.c:217-312 | What an action with users asks for, for each of read, write, execute and set-id of each of user, group and others: + gives and - takes exactly the bits that its users and letters name, = makes them so; X counts as x for directories and for what somebody may execute; others have no set-id bit. |
| `ModeLaws.AskedOfAll` | src/bin/chmod/setmode.c:334-374 | Without users it means all of them, but a bit that the umask takes is not given, and = clears it. |
| `ModeLaws.AskedCopy` | src/bin/chmod/setmode.c:274-293 | A copy gives the users the permissions that the copied user has so far. |
| `ModeLaws.AskedElsewhere` | src/bin/chmod/setmode.c:334-374 | All other bits, the sticky bit among them, stay as they are. |
| `ModeBits.SqueezedMeans` | src/bin/chmod/setmode.c:398-444 | The squeezed list means the same for every mode, also from the middle of a run. |
| `ModeBits.SqueezedIsTidy` | src/bin/chmod/setmode.c:398-444 | Between copy commands there is at most one '-', one '+' and one 'X', none of them empty. |
| `SetMode.CompressMode` | src/bin/chmod/setmode.c:398-444 | The in-place loop leaves the squeezed list, which has the same meaning for every mode and is tidy; what it writes never passes what it still has to read. |
| `SetMode.SetMode` | src/bin/chmod/setmode.c:162-331 | Returns a command list for exactly the accepted texts, numeric and symbolic. |
| `SetMode.Chmod` | src/bin/chmod/setmode.c:77-331 | Compiling, compressing and running: a numeric mode replaces the standard bits; a symbolic one applies its clauses one by one. |
| `JobShell.Shell.Pgetcurr` | src/bin/csh/proc.c:1214-1228 | Returns the first stopped process of the list that is a job and neither current nor pp; if no such job is stopped, the first that is not; null if there is none. |
| `JobTable.ClearedKeeps` | src/bin/csh/proc.c:429-443 | After `pclrcurr` the job is neither current nor previous, the marks are distinct live leaders, and a place is empty only for want of other jobs. |
| `JobShell.Shell.Pclrcurr` | src/bin/csh/proc.c:429-443 | The place of the job goes to the other marked job or to the best one left by that rule, and the place behind it to the best one then; if it was not marked, nothing changes. |
| `JobTable.FlushedKeeps` | src/bin/csh/proc.c:396-422 | Flushing keeps the whole invariant of the job table and takes exactly one job out of it. |
| `JobShell.Shell.Pflush` | src/bin/csh/proc.c:396-422 | From any process of a job: the whole ring is flushed, its marks go where `pclrcurr` puts them, and pmaxindex is right; a flushed process changes nothing. |
| `JobShell.Shell.FindIndex` | src/bin/csh/proc.c:496-508 | The search ends, and returns the least index that no process has. |
| `JobTable.IndexBound` | src/bin/csh/proc.c:493-508 | The index of a new job is at most the larger of nine and the number of live jobs. |
| `JobTable.JoinedKeeps` | src/bin/csh/proc.c:475-486 | A process that joins the current job keeps the invariant: rings partition the list, a ring has one index, one job id and one leader. |
| `JobTable.StartedKeeps` | src/bin/csh/proc.c:487-513 | A new job keeps the invariant, with an index of its own. |
| `JobShell.Shell.Palloc` | src/bin/csh/proc.c:455-517 | The method does one of the two: the process joins the current job with its job id and index, or starts one with an index that no process has, takes a free mark and refers to the current directory, which only a new job does. |
| `JobTable.ReapedKeeps` | src/bin/csh/proc.c:246-255 | Freeing the flushed processes takes whole rings and leaves the jobs as they are. |
| `JobShell.Shell.Pstart` | src/bin/csh/proc.c:1111-1140 | Exactly the processes of the job that have not ended run on and are not stopped, in the foreground or not; all other flags stay; a job in the background loses its marks as in `pclrcurr`. |
| `JobShell.Shell.Pendjob` | src/bin/csh/proc.c:634-651 | The next process starts a job of its own; nothing else changes. |
| `JobShell.Shell.Pchild` | src/bin/csh/proc.c:91-206 | What a change of status does: a job is stopped or done exactly when none of its processes runs or has been reported then; a stopped job is current and the one that was current previous; a job that is done loses its marks as in `pclrcurr`, and is flushed when its end has been told. The cells of all processes are determined: the status of the process, who is reported, and whether the leader needs a note. |
| `JobShell.JudgedSays` | src/bin/csh/proc.c:150-197 | What decides it, process by process: another process of the job that runs or has been reported, then one that has stopped, then whether any was in the foreground. |
| `JobShell.HeardSays` | src/bin/csh/proc.c:91-206 | What those cells mean: the process neither runs nor is in the foreground; when its job has stopped or ended, no process of the job runs and all stopped ones are reported; the processes of other jobs are as they were. |
| `DirRing.Dirs.Printdirs` | src/bin/csh/dir.c:188-223 | What `dirs` shows is the stack that the ring stands for, wherever its head is. |
| `DirRing.Dirs.Dfind` | src/bin/csh/dir.c:521-543 | Finds the record n places down the stack, or reports that the stack is not deep enough. |
| `DirRing.Dirs.Dfree` | src/bin/csh/dir.c:590-600 | Forgets a record exactly when nobody refers to it; otherwise it stays, unlinked. |
| `DirRing.Dirs.Dochngd` | src/bin/csh/dir.c:322-364 | The top of the stack is replaced, or given up for the n-th record; with each error nothing changes; the record that was left is freed exactly if its count is zero. |
| `DirRing.Dirs.Dopushd` | src/bin/csh/dir.c:469-515 | Exchanges the top two, rotates the n-th record to the top, or pushes a new one; with each error nothing changes. |
| `DirRing.Dirs.Dopopd` | src/bin/csh/dir.c:551-584 | Removes the top or the n-th record, which is freed exactly if its count is zero; with each error nothing changes. |
| `JobDirs.Csh.Dochngd` | src/bin/csh/dir.c:322-364 | Across both files: the new stack, every error and the counts, and still every count is the number of processes that refer to the record, and no process refers to a freed one. |
| `JobDirs.Csh.Palloc` | src/bin/csh/proc.c:475-513 | The process joins the current job, or starts one with an index of its own and a reference to the current directory, whose count goes up with it. |
| `JobDirs.Csh.Pwait` | src/bin/csh/proc.c:235-255 | The loop unlinks exactly the flushed processes, takes their references away, and frees a record with its last reference unless it is on the ring. |
| `JobDirs.Csh.Run` | src/bin/csh/proc.c:91-517 | Over any run of forks, changes of status, starts, flushes, reaping and directory commands the invariant of the job table, the ring with its head and current directory, and the counts all hold. |
| `JobDirs.Session` | src/bin/csh/dir.c:65-127 | So they do after any run from the start of the shell. |
| `VisText.EncodedSize` | src/bin/csh/vis.c:57-139 | Every character takes one to four bytes. |
| `VisIo.Vis` | src/bin/csh/vis.c:57-139 | Writes exactly the encoding and a NUL. |
| `VisCode.VisBack` | src/bin/csh/vis.c:57-139 | The decoder gives each character back, whatever follows, by the byte that `vis` looks ahead to tell `\0` from `\000`. |
| `VisCode.LiteralWhen` | src/bin/csh/vis.c:41-51 | Which characters are left plain under which flag: spaces, tabs and newlines each under their own, bell, backspace and return only with VIS_SAFE, pattern characters unless VIS_GLOB asks for them, with VIS_ALL none but the backslash, and never other control characters or bytes with the eighth bit. |
| `VisCode.BackslashWhen` | src/bin/csh/vis.c:59-65 | A plain character has a backslash in front exactly if it is one and VIS_NOSLASH is not set, or a double quote with VIS_DQ. |
| `VisCode.FormWhen` | src/bin/csh/vis.c:68-138 | Which encoding the others get: a C escape, three octal digits, or a caret or dash form. |
| `VisText.DecodeEncoded` | src/bin/csh/vis.c:229-242 | Any block of bytes can be recovered from its encoding. |
| `VisText.ClearIsClear` | src/bin/csh/vis.c:57-139 | Two blocks have the same encoding if and only if VIS_NOSLASH is set without VIS_ALL. |
| `VisIo.Strvisx` | src/bin/csh/vis.c:229-242 | The loop stores the encodings of all bytes, in at most four times their number, and they decode to the source. |
| `VisIo.Strnvis` | src/bin/csh/vis.c:167-207 | Stores the longest run of whole encodings that fits and a NUL, and returns the length of all of them, if and only if the size is not one or the string is empty; for a size of one it returns 0. |
| `CshWords.TailSum` | src/bin/csh/parse.c:510-522 | What the first loop of `syn3` takes off for a redirection, it adds again for the file name. |
| `CshReads.SoundSyntax` | src/bin/csh/parse.c:203-289 | Whatever the grammar derives from a range has the shape of a line, its parentheses are balanced, and the words of its leaves are, in order, the arguments as a reader of the single words tells them: no operators, separators, grouping parentheses or parts of redirections. |
| `CshUnique.RestIs` | src/bin/csh/parse.c:290-327 | After a separator, `syn1` calls `syntax` on the rest; as `syn0` has cut off everything that runs in the background, that is a list without it. |
| `CshUnique.UniqueSyntax` | src/bin/csh/parse.c:203-635 | The grammar is unambiguous: a range has one tree at most, with its operators, background marks, redirection files and flags. |
| `CshLeaves.TidyIsSpelled` | src/bin/csh/parse.c:535-622 | Words are a list of arguments, groups and redirections exactly when, outside parentheses, they are balanced, every redirection has its file name, and there is no operator. |
| `CshLeaves.Syn3ByWords` | src/bin/csh/parse.c:450-635 | What `syn3` accepts and makes of it, by the words alone: one input at most, none behind a bar, no << within parentheses; in front of a bar no output, but one with /&; the input is the name behind <, the output that behind the last >, each flag tells of one option, and the command has the arguments of the range or is one group. |
| `CshTrees.GoodSyntax` | src/bin/csh/parse.c:203-635 | In every tree that the grammar derives no command behind a bar has an input, none in front of one an output but with /&, none in parentheses reads with <<, and only the left side of a list runs in the background; each command has its arguments and redirections from a range of its own, and each operator stands between its two sides. |
| `CshAccept.AcceptedIsDerived` | src/bin/csh/parse.c:203-635 | A line can be derived exactly when, cut at its operators, each part is a command that suits the operators beside it, or is empty where separators are skipped, and so within its groups. |
| `CshParse.Parser.CountWords` | src/bin/csh/parse.c:493-531 | The first loop of `syn3`. |
| `CshParse.Parser.RightRedirect` | src/bin/csh/parse.c:560-587 | What follows > is a redirection with its flags and its file; an error is set exactly when there is no file name, or a pipe takes the output and there is no /&, or already a file, or an &. |
| `CshParse.Parser.LeftRedirect` | src/bin/csh/parse.c:589-609 | What follows < is a redirection; an error is set exactly when there is no file name, when the input comes from a pipe or from another file, or for << in parentheses. |
| `CshParse.Parser.Fill` | src/bin/csh/parse.c:535-622 | The second loop never stores more words than the first counted; it sets an error exactly when, by the words outside parentheses, the range is not in order or does not suit the pipe or the parentheses around it, and otherwise it has read all items. |
| `CshParse.Parser.Syn3` | src/bin/csh/parse.c:450-635 | The tree is what the words of the range say of a command with words, or of one group and redirections, with its files and flags; when there is any such tree, no error is set. |
| `CshParse.Parser.Syn2` | src/bin/csh/parse.c:405-448 | The same for a pipe, which is divided at its first bar; no command behind a bar has an input, and none in front of one an output but with /&. |
| `CshParse.Parser.Syn1b` | src/bin/csh/parse.c:368-403 | The same for a chain of pipes, divided at the first and operator. |
| `CshParse.Parser.Syn1a` | src/bin/csh/parse.c:329-366 | The same for a chain of those, divided at the first or operator. |
| `CshParse.Parser.Syn1` | src/bin/csh/parse.c:290-327 | The same for a list, divided at the first ; or newline; the command of a list that ends there is on the right. |
| `CshParse.Parser.Syn0` | src/bin/csh/parse.c:223-288 | The same for a line, divided at the first & that is not part of a pipe or a redirection; what runs in the background is a single pipe with its mark, or a list wrapped in a node with parentheses. |
| `CshParse.Parser.Syntax` | src/bin/csh/parse.c:203-222 | The same for nothing or a line, after any number of separators. |
| `CshParse.Parse` | src/bin/csh/parse.c:203-635 | A line is accepted if and only if each part between its operators is a command that suits them, in groups as well; equivalently, if the grammar derives a tree, and that tree is returned; no other is derived. It has the shape of the grammar and the arguments as its words; behind a bar no command has an input, in front of one none an output but with /&, and none in parentheses reads with <<; each command has its arguments, at most one input and its other redirections from a range of its own. |
| `ExprArith.MulTest` | src/bin/expr/expr.c:309-313 | With a divisor that is not zero, dividing the wrapped product back gives the left operand if and only if the true product fits into 64 bits. |
| `ExprArith.MulTestDefined` | src/bin/expr/expr.c:309-313 | The division of the test is itself in range for all operands but INT64_MIN and -1. |
| `ExprArith.QuotientDivides` | src/bin/expr/expr.c:314-327 | Quotient and remainder: q * r + m is the dividend, m is smaller than the divisor and has the sign of the dividend. |
| `ExprArith.DividedOnce` | src/bin/expr/expr.c:314-327 | There is only one such pair. |
| `ExprArith.Apply` | src/bin/expr/expr.c:309-331 | For +, -, *, / and % on all operands an overflow is reported exactly when the true result does not fit, and otherwise the true sum, difference, product, or quotient and remainder of the division that truncates toward zero; only INT64_MIN * -1 is undefined. |

## Left out

- VarTable.Table.Madrof: the pattern is any predicate on names; `Gmatch` itself is not part of this model.
- DdIo.Run: with conv=block or conv=unblock there is no translation table; conv=swab, sync, osync, noerror, count=, files= and sparse output are not part of this model, and of the statistics only the byte count is.
- ModeCompile.ClausesMean: actions that mix a copy letter with other letters are not covered, as the original promises nothing for them; `-X` is excluded by the exact condition of `ModeCompile.FaithfulAction`.
- CshParse.Parse: which of the error messages is given is not stated; the tree of a line with an error is thrown away, and after an error the model does not descend into a group any more, where the original goes on.
- csh: history and `$` expansion, alias substitution, `dcanon`, the contents of `cwd`, times and resource usage, terminal control, `psavejob`, `prestjob`, `pnote`, `pjwait` and all printing.
- ed: the command and address parser, marks, the `u` command inside a global command, file names, reading and writing files, binary and newline-added flags.
- cp: everything but the hard-link table, and freeing that table.
- dd: option parsing, positioning and the translation and case tables.
- vis: locales other than C, and `stravis`.
- expr: the parser, comparisons, `|`, `&` and `:`.
- Fixed limits of the originals (word and path lengths, stack sizes) and running out of memory.
