# Course exercises: coroutines, a FUSE file table, a flooding chat

This project models the sequential core of four exercises of a systems
course. It proves the properties each one promises.

- **Coroutine scheduler** (`coroutine.dfy`, module `Coroutine`). This models
  `practice-1/coroutine/coroutine.c`. It has two parts:
  - The growable array `co_array_t` is a class over a Dafny `array`, whose
    capacity doubles when it is full.
  - The scheduler is a class holding two such arrays:
    - the coroutine registry, where a coroutine's id is its index;
    - one metadata record per thread, naming the coroutine running on that
      thread (none means the thread's main flow).

  The class has `co_start`, the finish step of `_co_func_wrapper`,
  `co_yield`, `co_status`, `co_getid`, and the exit tests of `co_getret`,
  `co_wait` and `co_waitall`. Each method is proved against a pure step
  function on the two registries. An invariant (`WellFormed`) is proved to
  hold for every sequence of steps (`RunWellFormed`). It says that ids are
  indices, parents are earlier coroutines of the same thread, and each
  thread has one record. `Evolves` says RUNNING to FINISHED is the only
  status change.

- **keibot file system** (`keibot_path.dfy`, module `KeibotPath`, and
  `keibot.dfy`, module `Keibot`). This models `practice-3/fuse/keibot.c`.
  - The path helpers are pure functions: `is_parent_path`,
    `get_relative_name`, `concatenate`, `replace_first_after`, `swtich_bot`
    and `get_emoji_id`.
  - The circular list of `file_entry` records is a sequence held by the
    class `FileTable`, in list order. The list primitives are sequence
    functions.
  - Every FUSE operation of the file table is a method. Each returns an
    errno-style result and states its new table.

- **Chat message** (`message.dfy`, module `ChatMessage`). This models
  `practice-4/message.h`:
  - address equality;
  - the letter-shift cipher keyed by the sender's port, as loop methods
    specified by functions;
  - serialisation, with deserialisation through the semantics of a
    `std::stringstream`;
  - the FIFO duplicate cache, as a class over a sequence.

- **Chat group** (`group.dfy`, module `ChatGroup`). This models
  `practice-4/group.h`, the flooding rule of `broadcast`. Each member's
  `send` appends to that member's outbox. The client, when present, has an
  outbox of its own.

- **Shared modules**:
  - `decimal.dfy` (module `Decimal`): the decimal text shared by `atoi`
    and by stream insertion and extraction of integers.
  - `wrappers.dfy`: `Option`.
  - `lookup.dfy` (module `Lookup`): the first-match search that both
    `_co_getmeta` and `find_entry` perform, defined once over a key
    projection.

The model follows the code, with three exceptions, each logged as a defect
under "## Findings". `co_status` follows its comment ("invalid cid")
rather than its bounds test. The file table uses the corrected type tests
of `IS_DIR` and `IS_REG`. A growing write leaves room for its NUL. The
"## Left out" section names each member whose behaviour therefore differs
from the code as written.
Three source defects are logged under "## Findings". Each is modelled as
written, with a lemma that shows the defect, and also corrected; the rest
of the model uses the corrected form. Every other input on which the
source aborts or has undefined behaviour is excluded by a precondition of
the member that models it, and "## Left out" has a line for each:
- the unchecked registry indexing of `co_getret` and `co_wait`;
- the missing NULL check in `co_getid`, and the assertion in `co_yield`
  that the thread has metadata;
- a finish step with no RUNNING coroutine on the thread (`CanFinish`);
- the unchecked emoji index in `keibot_write`;
- the 1024-byte buffers of `concatenate` and `replace_first_after`;
  `swtich_bot`, called by `keibot_mknod`, `keibot_mkdir` and
  `keibot_write`, overruns the latter (`SwitchBotFits`);
- the `assert(0)` calls inside `keibot_rename`;
- the signed overflow of `x + port` in `encode` and of the ttl decrement
  in `broadcast`.

## Model

| member | source | states |
|---|---|---|
| Coroutine.CoArray.constructor | practice-1/coroutine/coroutine.c:24-31 | A new array is empty and has capacity 1. |
| Coroutine.CoArray.Add | practice-1/coroutine/coroutine.c:36-49 | The value is appended after every earlier element, which stay unchanged. The capacity doubles exactly when the array was full, so `1 <= cap` and `len <= cap` keep holding. |
| Coroutine.CoArray.Get | practice-1/coroutine/coroutine.c:51 | Slot i holds the i-th value added. |
| Coroutine.CoArray.Put | practice-1/coroutine/coroutine.c:172-177 | A store through the pointer in slot i rewrites exactly that element and leaves every other one alone. |
| Coroutine.EvolvesTransitive | practice-1/coroutine/coroutine.c:73-94 | The registry's allowed evolution composes: it only grows, its ids, threads and parents are fixed, and a FINISHED record stays frozen over any chain of states. |
| Coroutine.FindMeta | practice-1/coroutine/coroutine.c:149-159 | `_co_getmeta` finds the first record of the thread, and finds nothing exactly when no record has that thread id. |
| Coroutine.NextCandidate | practice-1/coroutine/coroutine.c:275-287 | The scan finds the lowest id at or after the start that belongs to the thread and is RUNNING. It finds nothing exactly when no such coroutine exists. |
| Coroutine.StatusGuardAdmitsLen | practice-1/coroutine/coroutine.c:333 | The bounds test as written accepts `cid == len`, an id with no record. |
| Coroutine.StatusGuardExact | practice-1/coroutine/coroutine.c:333 | The corrected bounds test accepts exactly the registered ids, and it is stricter than the test as written. |
| Coroutine.Scheduler.constructor | practice-1/coroutine/coroutine.c:115-129 | A new scheduler has both registries empty and is well formed. |
| Coroutine.Scheduler.GetMeta | practice-1/coroutine/coroutine.c:149-159 | The loop returns the index `FindMeta` specifies. |
| Coroutine.Scheduler.GetId | practice-1/coroutine/coroutine.c:161-164 | The result is -1 exactly in main. Otherwise it is the running coroutine's id, which is a registered coroutine of the calling thread. |
| Coroutine.Scheduler.EnsureMeta | practice-1/coroutine/coroutine.c:202-212 | The thread's record is found, or appended with nothing running. The record is then found at the returned index and runs what ran before. The invariant is kept. |
| Coroutine.Scheduler.Start | practice-1/coroutine/coroutine.c:183-243 | The new coroutine's id is the registry length before the call. Its record is RUNNING with ret -1, and its parent is what ran on the thread. It becomes the running coroutine. The invariant is kept, the registry only evolves, and -1 is returned when a context call fails. |
| Coroutine.Scheduler.Register | practice-1/coroutine/coroutine.c:193-227 | The new record is appended with id equal to the old length, and the thread's record now runs it. Nothing else changes. |
| Coroutine.Scheduler.Finish | practice-1/coroutine/coroutine.c:167-181 | The running coroutine becomes FINISHED with the returned value, and the thread goes back to its parent. The invariant is kept and the registry only evolves. |
| Coroutine.Scheduler.Scan | practice-1/coroutine/coroutine.c:271-287 | The loop returns the candidate `NextCandidate` specifies. |
| Coroutine.Scheduler.Yield | practice-1/coroutine/coroutine.c:245-299 | The thread resumes the first RUNNING coroutine of its own after the current one (from 0 in main), or main if there is none. The registry is unchanged. A switch happens unless main yields to main, and -1 is returned only when a switch fails. |
| Coroutine.Scheduler.Status | practice-1/coroutine/coroutine.c:324-347 | The result is the target's status when the caller is authorised. Otherwise it is UNAUTHORIZED. |
| Coroutine.Scheduler.PollReturn | practice-1/coroutine/coroutine.c:301-318 | This is the exit test of `co_getret`. It reports finished exactly for a FINISHED coroutine, and then its return value. |
| Coroutine.Scheduler.PollWait | practice-1/coroutine/coroutine.c:349-369 | This is the exit test of `co_wait`. It reports finished exactly for a FINISHED coroutine. |
| Coroutine.Scheduler.AllFinished | practice-1/coroutine/coroutine.c:371-393 | The scan of `co_waitall` holds exactly when every registered coroutine, of any thread, is FINISHED. |
| Coroutine.StartAfterEnsure | practice-1/coroutine/coroutine.c:202-227 | After the metadata lookup, pointing the thread's record at the new id gives the `co_start` thread registry. The parent read is the coroutine that ran before. |
| Coroutine.OtherThreadsUntouched | practice-1/coroutine/coroutine.c:227 | Rewriting one thread's record leaves the lookup and the running coroutine of every other thread unchanged. |
| Coroutine.OtherThreadsUntouchedByAppend | practice-1/coroutine/coroutine.c:205-212 | Appending the record of a new thread leaves every other thread's lookup and running coroutine unchanged. |
| Coroutine.StartWellFormed | practice-1/coroutine/coroutine.c:193-227 | `co_start` keeps the invariant and the registry only evolves. The new coroutine is current on its thread, and no other thread's running coroutine changes. |
| Coroutine.StartRecordsOk | practice-1/coroutine/coroutine.c:193-199 | The appended record has id equal to its index, is RUNNING with ret -1, and has a parent below it on the same thread. No earlier record changes. |
| Coroutine.StartThreadsOk | practice-1/coroutine/coroutine.c:202-227 | After `co_start` the thread has exactly one record, and it runs the new coroutine. |
| Coroutine.StartTidsUnique | practice-1/coroutine/coroutine.c:202-212 | Creating metadata only for a thread without any keeps one record per thread. |
| Coroutine.StartOtherThreads | practice-1/coroutine/coroutine.c:202-227 | `co_start` changes no other thread's running coroutine. |
| Coroutine.SwitchWellFormed | practice-1/coroutine/coroutine.c:274-285 | Pointing a thread's running slot at one of its own coroutines, or at main, keeps the invariant and touches no other thread. |
| Coroutine.YieldWellFormed | practice-1/coroutine/coroutine.c:257-287 | `co_yield` keeps the invariant and touches no other thread. What it resumes is a RUNNING coroutine of the calling thread, or main. |
| Coroutine.FinishWellFormed | practice-1/coroutine/coroutine.c:172-177 | The finish step keeps the invariant and the registry only evolves. The thread returns to the parent, and no other thread is touched. |
| Coroutine.AncestorIdsBelow | practice-1/coroutine/coroutine.c:339-345 | Every ancestor has a smaller id than its descendant, so the parent walk of `co_status` terminates. |
| Coroutine.AncestorSameThread | practice-1/coroutine/coroutine.c:339-345 | Every ancestor is a registered coroutine of the descendant's thread. |
| Coroutine.AncestorTransitive | practice-1/coroutine/coroutine.c:339-345 | An ancestor of an ancestor is an ancestor. |
| Coroutine.MainAlwaysAuthorized | practice-1/coroutine/coroutine.c:339-340 | From main, `co_status` always reports the status of a coroutine of the caller's thread. |
| Coroutine.DescendantAuthorized | practice-1/coroutine/coroutine.c:341-344 | A running coroutine may query itself and every descendant on its thread. |
| Coroutine.UnrelatedUnauthorized | practice-1/coroutine/coroutine.c:341-346 | A coroutine is refused the status of every coroutine with a smaller id, since such a coroutine cannot be its descendant. |
| Coroutine.ForeignUnauthorized | practice-1/coroutine/coroutine.c:333-346 | Ids outside the registry, and coroutines of another thread, are never authorised. |
| Coroutine.ForwardScanExample | practice-1/coroutine/coroutine.c:257-287 | Take three RUNNING coroutines on one thread. From 1 the scan resumes 2. From 2 it returns to main, although 0 is still RUNNING. From main it resumes 0. |
| Coroutine.RunWellFormed | practice-1/coroutine/coroutine.c:167-299 | Every sequence of starts, yields and finishes from a well-formed state stays well formed. Along it, RUNNING to FINISHED is the only status change. |
| Coroutine.RunSnoc | practice-1/coroutine/coroutine.c:167-299 | Running one more operation after a run is the run of the extended sequence. |
| Coroutine.NestedStartScenario | practice-1/coroutine/coroutine.c:183-243 | A starts B, B returns 42 and A returns 7. Both end FINISHED with those values, B's parent is A, and the thread is back in main. |
| Coroutine.ParentFinishesFirstScenario | practice-1/coroutine/coroutine.c:167-181 | A starts B, then both yield, A returns 7 and then B returns 42. The thread's running slot then names A, which has already finished. |
| Decimal.NatToStringValue | practice-4/message.h:92 | Reading back the decimal rendering of a number gives the number. |
| Decimal.IntToStringShape | practice-4/message.h:92 | The rendering of an int starts with '-' exactly when the value is negative, and with a digit otherwise. |
| KeibotPath.StripLen | practice-3/fuse/keibot.c:140-143 | The compared length is the capped length, less one trailing '/'. It is never beyond the path or the cap. |
| KeibotPath.FindChar | practice-3/fuse/keibot.c:145 | `strchr` finds the first occurrence at or after the start, and finds nothing exactly when none exists. |
| KeibotPath.ParentMeansPrefix | practice-3/fuse/keibot.c:139-146 | Both ways, p2 lies under p1 exactly when stripped p1 followed by '/' is a prefix of stripped p2. The strict form adds exactly that no further '/' follows. |
| KeibotPath.ParentTransitive | practice-3/fuse/keibot.c:139-146 | Lying under is transitive. |
| KeibotPath.ParentIrreflexive | practice-3/fuse/keibot.c:139-146 | No path lies under itself, strictly or not. |
| KeibotPath.RootIsParent | practice-3/fuse/keibot.c:139-146 | "/" is a parent exactly of the absolute paths other than itself. |
| KeibotPath.RelativeName | practice-3/fuse/keibot.c:148-157 | The relative name contains no '/'. |
| KeibotPath.RelativeNameJoins | practice-3/fuse/keibot.c:148-157 | For a strict child, the parent, a '/' and the relative name together give the child's stripped path. |
| KeibotPath.Concatenate | practice-3/fuse/keibot.c:159-164 | Below the 1024-byte cap, the result is the first string followed by the second. |
| KeibotPath.FirstOccurrence | practice-3/fuse/keibot.c:170 | `strstr` finds the first occurrence at or after the start, and finds nothing exactly when none exists. |
| KeibotPath.ReplaceFirstAfter | practice-3/fuse/keibot.c:166-180 | The result fits the buffer and keeps the parent's part of the path. Without an occurrence after it, the path comes back unchanged. |
| KeibotPath.ReplaceFirstAfterSplices | practice-3/fuse/keibot.c:166-180 | Only the first occurrence after the parent is replaced. The text before and after it is kept, and the length changes by the difference of the two strings. |
| KeibotPath.EmojiIdOfNumber | practice-3/fuse/keibot.c:196-199 | ":emoji" and a number, followed by a non-digit or the end, selects exactly that number. |
| KeibotPath.AtoiOfNumber | practice-3/fuse/keibot.c:198 | `atoi` reads back a rendered number followed by a non-digit or the end. |
| KeibotPath.EmojiIdNeedsPrefix | practice-3/fuse/keibot.c:197 | A non-negative emoji id implies that the buffer starts with ":emoji". |
| KeibotPath.SwitchBotMirrors | practice-3/fuse/keibot.c:182-185 | A path below the first bot's directory, at any depth, is mirrored at the same name below the second bot's directory. |
| KeibotPath.SwitchBotMirrorsBack | practice-3/fuse/keibot.c:182-191 | A path below the second bot's directory, and not also below the first's (which is tested first), is mirrored at the same name below the first bot's directory. |
| Keibot.ListAdd | practice-3/fuse/keibot.c:40-45 | Linking in at position i puts the node there and shifts the later nodes by one. Nothing else changes. |
| Keibot.ListAddTail | practice-3/fuse/keibot.c:51-53 | Tail insertion puts the node after every existing node. |
| Keibot.ListDel | practice-3/fuse/keibot.c:55-60 | Unlinking the node at i removes exactly it and keeps the order of the rest. |
| Keibot.ListDelUndoesAdd | practice-3/fuse/keibot.c:40-60 | Unlinking a node just linked in restores the list. |
| Keibot.ListDelKeepsOthers | practice-3/fuse/keibot.c:55-60 | Unlinking loses exactly one copy of the unlinked value, as a multiset. |
| Keibot.TypeTestsAsWrittenMissPermissions | practice-3/fuse/keibot.c:103-104 | As written, `IS_DIR` is false for a 0755 directory, and `IS_REG` is false for 0644 and 0444 files. |
| Keibot.TypeTestsCorrected | practice-3/fuse/keibot.c:103-104 | The corrected tests see the file type whatever the permissions, and never both. They agree with the as-written tests wherever those say yes. |
| Keibot.BlocksCoverSize | practice-3/fuse/keibot.c:212 | `st_blocks` is the least number of 512-byte blocks that covers the size, and is 0 exactly for size 0. |
| Keibot.NewEntry | practice-3/fuse/keibot.c:201-222 | A new entry has the given path and mode, size 0 and blocks 0, and satisfies the entry invariant. |
| Lookup.FirstWithKey | practice-3/fuse/keibot.c:112-119 | The search stops at the first element whose key is sought, and finds nothing exactly when no element has that key. |
| Keibot.Find | practice-3/fuse/keibot.c:112-119 | `find_entry` finds the first entry in list order with the path, and finds nothing exactly when none has it. |
| Keibot.FindAppendAbsent | practice-3/fuse/keibot.c:107-119 | An entry appended for an absent path is found at the tail. |
| Keibot.AppendKeepsUnique | practice-3/fuse/keibot.c:301-306 | Adding the entry of an absent path keeps paths unique. It changes the lookup of no other path. |
| Keibot.FindAppend | practice-3/fuse/keibot.c:107-119 | Appending an entry does not change the lookup of a different path. |
| Keibot.DelRemovesOnlyThat | practice-3/fuse/keibot.c:224-229 | With unique paths, unlinking an entry removes its path and keeps every other entry findable. |
| Keibot.CountUnderZero | practice-3/fuse/keibot.c:354-360 | The count of `keibot_rmdir` is zero exactly when no entry lies under the path. |
| Keibot.ChildrenAreEntries | practice-3/fuse/keibot.c:288-296 | Every listed name is a strict child: the directory, '/' and the name together give an entry's path. |
| Keibot.WriteNulOutOfBoundsAsWritten | practice-3/fuse/keibot.c:369-375 | As written, every growing write stores its NUL one past the buffer it has just reallocated. |
| Keibot.WriteNulOutOfBoundsExample | practice-3/fuse/keibot.c:369-375 | A one-byte write to a new file reallocates to 1 byte, and then its NUL goes at index 1. |
| Keibot.WriteNulInBounds | practice-3/fuse/keibot.c:369-375 | With the corrected size, the NUL of every write lands inside the buffer. |
| Keibot.WriteEntryOk | practice-3/fuse/keibot.c:366-379 | After `write_file`, `buf` is at the offset and the size is offset plus length, so any older tail is cut. The content before the offset is kept, blocks cover the new size, and the entry invariant holds. |
| Keibot.ReadBytes | practice-3/fuse/keibot.c:421-423 | `keibot_read` copies `min(max(size - offset, 0), bytes)` bytes, taken from the content at the offset. |
| Keibot.ReadAfterWrite | practice-3/fuse/keibot.c:366-424 | Reading back at the offset just written returns exactly what was written. |
| Keibot.WriteAtKeepsPaths | practice-3/fuse/keibot.c:366-379 | A write changes one entry's content and no path. Every other entry is kept, and unique paths stay unique. |
| Keibot.Renamed | practice-3/fuse/keibot.c:488-490 | The renamed table keeps every path non-empty. |
| Keibot.RenameKeepsInvariants | practice-3/fuse/keibot.c:488-490 | A rename keeps every entry well formed, and keeps paths unique. |
| Keibot.RenamedEntriesOk | practice-3/fuse/keibot.c:488-490 | Dropping one entry and retargeting another to a non-empty path keeps every entry well formed. |
| Keibot.FindUnique | practice-3/fuse/keibot.c:112-119 | With unique paths, an entry's path is found at that entry. |
| Keibot.RetargetKeepsUnique | practice-3/fuse/keibot.c:489-490 | Giving an entry an absent path keeps paths unique. The old path disappears and the new one is found at that entry. |
| Keibot.RenamedOverDest | practice-3/fuse/keibot.c:488-490 | Renaming onto an existing destination is its unlink followed by retargeting the source, which has moved down by one if it came after. |
| Keibot.RenameMoves | practice-3/fuse/keibot.c:474-490 | After a rename the source path is gone and the destination names the old source entry. The table shrinks by one exactly when the destination existed, and paths stay unique. |
| Keibot.FileTable.constructor | practice-3/fuse/keibot.c:231-249 | The table holds the root directory and, in chatbot mode, the directories "/" + bot1 and "/" + bot2. |
| Keibot.FileTable.FindEntry | practice-3/fuse/keibot.c:112-119 | The loop returns the entry `Find` specifies. |
| Keibot.FileTable.GetAttr | practice-3/fuse/keibot.c:266-277 | The result is -ENOENT for a missing path, and otherwise 0 with that entry's status. |
| Keibot.FileTable.CreateFile | practice-3/fuse/keibot.c:301-306 | The result is -ENAMETOOLONG beyond 1024 bytes, or -EEXIST for a present path. Otherwise exactly one empty entry is added at the tail. The invariant holds and unique paths stay unique. |
| Keibot.FileTable.MakeNode | practice-3/fuse/keibot.c:308-334 | `create_file` runs with the type bits added, then in chatbot mode again for the path's mirror. On the first failure (-ENAMETOOLONG or -EEXIST) nothing changes and no mirror is computed. The result is that of the last `create_file`. |
| Keibot.FileTable.Unlink | practice-3/fuse/keibot.c:336-345 | The result is -ENOENT, or -EISDIR for a directory with nothing changed. Otherwise exactly that entry is removed. |
| Keibot.FileTable.CountEntriesUnder | practice-3/fuse/keibot.c:354-359 | The loop counts the entries lying under the path. |
| Keibot.FileTable.Rmdir | practice-3/fuse/keibot.c:347-364 | The result is -ENOENT, -EISNAM for a regular file, or -ENOTEMPTY when anything lies under the path, with nothing changed. Otherwise exactly that entry is removed. |
| Keibot.FileTable.WriteFile | practice-3/fuse/keibot.c:366-379 | The result is -EISDIR for a directory. Otherwise 0, and the entry is the written one. No other entry changes. |
| Keibot.FileTable.Write | practice-3/fuse/keibot.c:381-410 | The result is -ENOENT without a handle, or -EISDIR for a directory, with nothing changed. Otherwise the buffer, or the emoji it selects at offset 0, is written to the entry and then to the mirror if one exists, and the byte count is returned. |
| Keibot.FileTable.Read | practice-3/fuse/keibot.c:412-424 | The result is -ENOENT without a handle, or -EISDIR for a directory. Otherwise it is the byte count, with the bytes `ReadBytes` specifies. |
| Keibot.FileTable.Rename | practice-3/fuse/keibot.c:474-507 | Equal names change nothing. A missing source gives -ENOENT, and an existing destination under NOREPLACE gives -EEXIST. Otherwise the destination is unlinked and the source entry takes its name. |
| Keibot.FileTable.ReadDir | practice-3/fuse/keibot.c:279-299 | The listing is "." and, except for "/", "..". It ends there with -ENOENT for a missing directory. Otherwise it continues with the names of the strict children in list order. |
| Keibot.ChildNames | practice-3/fuse/keibot.c:288-296 | The loop over the entry list yields exactly `Children`: the relative names of the strict children, in list order. |
| Keibot.FileTable.Open | practice-3/fuse/keibot.c:439-446 | A missing path is created as an empty read-only regular file. A directory gives -EISDIR, and anything else a handle to its entry. |
| Keibot.FileTable.OpenDir | practice-3/fuse/keibot.c:448-455 | A missing path is created as a directory without a buffer. A regular file gives -EISNAM, and anything else a handle to its entry. |
| ChatMessage.AddressEquality | practice-4/message.h:34-39 | `==` holds exactly when both ip and port are equal, and `!=` is exactly its negation. |
| ChatMessage.CRem | practice-4/message.h:62 | C++ `%` keeps the dividend's sign and satisfies `(a / b) * b + a % b == a` with truncating division. It agrees with the mathematical remainder on non-negative values. |
| ChatMessage.Encode | practice-4/message.h:60-70 | The character loop computes `Encoded`. |
| ChatMessage.Decode | practice-4/message.h:72-82 | The character loop computes `Decoded`. |
| ChatMessage.EncodeShape | practice-4/message.h:60-70 | `encode` keeps the length and every non-letter. For a non-negative port it keeps letters in their case, each moved `port mod 26` places along its alphabet. |
| ChatMessage.ShiftBack | practice-4/message.h:62-74 | Shifting a letter index by the port and back by the port mod 26, in either order, returns it. |
| ChatMessage.DecEncChar | practice-4/message.h:60-82 | For a non-negative port, decoding an encoded character gives it back. |
| ChatMessage.DecodeEncode | practice-4/message.h:60-82 | For a non-negative port, `decode(encode(s)) == s` for every s. |
| ChatMessage.EncodeDecode | practice-4/message.h:60-82 | For a non-negative port, `encode(decode(s)) == s` for every s. |
| ChatMessage.NegativePortLosesLetters | practice-4/message.h:62-65 | With port -1, "a" encodes to '`', which is not a letter, and decoding does not bring "a" back. |
| ChatMessage.ExtractInt | practice-4/message.h:97 | `operator>>` only moves forward and keeps the text. On a stream that has already failed it changes nothing. |
| ChatMessage.Ignore | practice-4/message.h:98 | `ignore` only moves forward, and on a failed stream it changes nothing. |
| ChatMessage.GetLine | practice-4/message.h:99 | `getline` keeps the text, and on a failed stream it keeps the string as it was. |
| ChatMessage.ReadFields | practice-4/message.h:96-97 | The four extractions leave the text and the content as they were. |
| ChatMessage.ExtractRendered | practice-4/message.h:92-97 | Extracting at spaces followed by an int's rendering and a non-digit reads exactly that int. It stops right after the rendering, and the stream stays good. |
| ChatMessage.HeaderOfFramed | practice-4/message.h:90-98 | On a serialised header the four extractions read back ip, port, id and ttl. They stop at the ';' that precedes the body. |
| ChatMessage.DeserializeSerialize | practice-4/message.h:90-101 | For a non-negative port and content without a newline, `deserialize(serialize(m))` restores m, whatever the message held before. |
| ChatMessage.DeserializedAt | practice-4/message.h:98-100 | Once the header is read up to ';', the content is the decoded rest of the line. |
| ChatMessage.DeserializeEmpty | practice-4/message.h:95-101 | An empty packet reads no field, yet decodes the old content once more. |
| ChatMessage.DeserializeGarbage | practice-4/message.h:95-101 | A packet that does not start with a number sets ip to 0, reads nothing more, and decodes the old content once more. |
| ChatMessage.Trimmed | practice-4/message.h:131 | The pop_front loop keeps the newest elements in order: the last n, or all of them when there are no more than n. |
| ChatMessage.CacheAddInvariant | practice-4/message.h:129-132 | After `add` the cache holds at most 100 entries, and no (address, id) key is added a second time. |
| ChatMessage.CacheAddHits | practice-4/message.h:122-132 | After `add`, `hit` holds for the message added. |
| ChatMessage.CacheAddFifo | practice-4/message.h:129-132 | A hit leaves the cache alone. A new key goes to the back, and on a full cache only the oldest entry is evicted. |
| ChatMessage.MessageCache.constructor | practice-4/message.h:118-120 | A new cache is empty. |
| ChatMessage.MessageCache.Hit | practice-4/message.h:122-127 | `hit` holds exactly when a cached message has the same address and id. |
| ChatMessage.MessageCache.Add | practice-4/message.h:129-132 | The new cache is `CacheAdd` of the old. From a valid cache, it stays valid and hits the message. |
| ChatMessage.MessageCache.TrimToCapacity | practice-4/message.h:131 | The loop leaves the 100 newest entries. |
| ChatGroup.DeliverOutbox | practice-4/group.h:71 | A fan-out to a set of members appends the message once to each of their outboxes and leaves every other outbox alone. |
| ChatGroup.DeliverOneMore | practice-4/group.h:71 | Sending to one more member extends the fan-out by that member. |
| ChatGroup.ForwardedOnce | practice-4/group.h:63-68 | After a message is forwarded, every message with the same address and id is blocked, so a key is forwarded at most once. |
| ChatGroup.RecentWindow | practice-4/group.h:74-80 | The recent list never exceeds 20 messages. The newest is last, and the oldest is dropped first. |
| ChatGroup.Group.constructor | practice-4/group.h:32-40 | A new group has the given blacklist, and no members, recent messages, cache or deliveries. |
| ChatGroup.Group.Join | practice-4/group.h:42-47 | The member is inserted and receives every recent message, in order. |
| ChatGroup.Group.Leave | practice-4/group.h:49-53 | Only that member is removed. |
| ChatGroup.Group.FindInBlackList | practice-4/group.h:56-59 | True exactly when the address equals a blacklisted one. |
| ChatGroup.Group.Broadcast | practice-4/group.h:55-81 | A message is forwarded exactly when it is not blocked. A blocked message changes nothing: its ttl ran out, or its key is cached, or its sender is blacklisted. A forwarded copy has ttl one less. It is added to the cache, sent once to every member and to the client if present, and appended to the bounded recent list. |
| ChatGroup.Group.Forward | practice-4/group.h:68-80 | The message is added to the cache, sent to every member and to the client if present, and appended to the recent list, which is trimmed to its 20 newest. |
| ChatGroup.Group.SendToMembers | practice-4/group.h:71 | Every current member receives the message exactly once, whatever order the loop takes. |
| ChatGroup.Group.PushRecent | practice-4/group.h:74-80 | `push_back`, then `pop_front` while over 20 entries, leaves the 20 newest. |

## Left out

- Context switching (`getcontext`, `makecontext`, `swapcontext`, `uc_link`) and coroutine stacks. A switch is modelled as the update of the thread's running slot, and a failing context call as a boolean parameter.
- Coroutine.Scheduler.Start: it models the state at the switch into the new coroutine. What happens before `co_start` returns the id is further steps, `Yield` and `Finish`. The metadata lookup comes before the append of the new record, where the source has the opposite order. The two touch different registries, so the end state is the same.
- Coroutine.Scheduler.PollReturn, PollWait and AllFinished model one exit test of the busy-yield loops of `co_getret`, `co_wait` and `co_waitall`. The loops are unbounded and the model does not claim that they end.
- Coroutine.Scheduler.PollReturn and PollWait require a valid id, because `co_getret` (coroutine.c:306) and `co_wait` (coroutine.c:358) index the registry without a bounds check.
- Coroutine.Scheduler.GetId requires the thread's metadata record, because `co_getid` dereferences `_co_getmeta()` without a NULL check.
- Coroutine.Scheduler.Yield requires the thread's metadata record, as the source asserts.
- Coroutine.Scheduler.Status models `co_status` with the corrected bounds test (see "## Findings").
- Coroutine.Scheduler.Finish requires `CanFinish`: the thread's running slot names a RUNNING coroutine. A parent can finish before its child (`ParentFinishesFirstScenario`). The child's `uc_link`, fixed at coroutine.c:218-219, then names the parent's context, on the stack the wrapper freed at coroutine.c:177. When the child finishes, the source resumes that stale context, so the parent's tail and its wrapper run a second time: a use after free and a double free. The model stops at the state whose running slot names the FINISHED parent, and does not model what the source does next.
- The rwlocks, the double-checked initialisation of the scheduler, `co_scheduler_destroy` and `co_array_destroy`: they exist for concurrency and memory release. Thread ids are opaque integers passed in for `pthread_self()`.
- `co_array_set` expands to a plain read of the slot. The stores the source makes through the pointers held in the registries are modelled by `CoArray.Put`.
- Memory exhaustion (`malloc`, `strdup` and `realloc` returning NULL, and `-ENOMEM` in `write_file`): allocation always succeeds.
- Keibot.FileTable.Rename: renaming a directory (by the corrected type test) with entries under it reaches `assert(0)` in the source. This is a precondition (`RenameNoAbort`), and the unreachable subtree loop after that assert is not modelled. `RENAME_EXCHANGE` also aborts, and is excluded by the precondition.
- Keibot.FileTable.Unlink, Rmdir, WriteFile, Write, Read, Rename, Open and OpenDir use the corrected `IS_DIR` and `IS_REG` (see "## Findings"). With the tests as written (keibot.c:103-104) no 0755 directory is a directory and no 0644 or 0444 file is regular, so the source behaves differently:
  - `unlink("/")` deletes the root made at keibot.c:235, where the model returns -EISDIR;
  - `rmdir` of a 0644 file deletes it (keibot.c:351-363), and `opendir` of one opens it (keibot.c:452), where the model returns -EISNAM;
  - writing to or reading from a 0755 directory's handle goes ahead, where the model returns -EISDIR;
  - `open` of a 0755 directory gives a handle, where the model returns -EISDIR;
  - renaming a non-empty 0755 directory does not abort: the entry takes the new name and its children keep their old paths.
- Keibot.FileTable.Write requires, when a handle is given, the selected emoji index to be in range, because `keibot_write` indexes the emoji table unchecked (keibot.c:389-390). The mirror write's result, which the source discards, is not returned.
- Keibot.FileTable.MakeNode and Write (and KeibotPath.ReplaceFirstAfter, SwitchBot) require `SwitchBotFits` in chatbot mode, on the branch that computes the mirror. That branch is MakeNode after its first `create_file` succeeds, and Write after its handle and directory tests. For a path below a bot directory the path must be shorter than 1024 bytes, and so must its rewritten mirror. `replace_first_after` (keibot.c:166-180) copies the path with `strncpy` into a 1024-byte buffer. A path of 1024 bytes or more is left without its terminator, so the `strstr` at keibot.c:171 reads past the buffer. A mirror of 1024 bytes or more makes the `memmove` at keibot.c:176 write past it. `create_file` rejects only paths over 1024 bytes (keibot.c:302), so `mkdir` of a 1024-byte path below a bot directory reaches this undefined behaviour, and the model does not cover it.
- KeibotPath.Concatenate requires the total length to be below 1024 bytes. Longer results are cut by the buffer and are not modelled.
- KeibotPath.Atoi: the value is the mathematical integer of the digits. The undefined behaviour of `atoi` outside the `int` range is not modelled.
- Keibot.WriteEntryOk: when the offset lies beyond the old end, the bytes in the gap are whatever the reallocated buffer holds. The model stores NULs there, and the contract leaves those bytes open.
- Paths, contents and emojis are sequences of characters. The model makes no distinction between characters and bytes, so multi-byte emojis count as characters.
- Timestamps (`time(NULL)`), `st_rdev`, `st_nlink`, `keibot_utimens`, `keibot_access`, `release`, `releasedir`, `keibot_destroy`, option parsing and the FUSE entry point. A file handle is the entry's index, not a raw pointer, and `filler` is the sequence of names returned.
- ChatMessage.Encode and ChatGroup.Forwarded: `encode` requires that `x + port` does not overflow `int`, and `broadcast` requires that the ttl decrement does not overflow. Both are undefined behaviour in C++.
- ChatMessage.DecodeEncode and DeserializeSerialize hold for non-negative ports only. For a negative port, `encode` moves letters out of the alphabet (`NegativePortLosesLetters`).
- `deserialize` is a function from the old message and the text to the new message, rather than an update in place.
- `parse_addr`, `Address::to_string`, `Message::display`, `operator<<` on messages, the logger and displayer, and the timer: these are formatting and console output.
- The `Group` constructor's reading of the blacklist file. The blacklist is a parameter. The `client` pointer, which the source never initialises, is a boolean parameter saying whether a client is attached.
- The mutex of the group, the client and server sockets, and the threads of the chat program: these are concurrency and I/O. The iteration order of the member set is left open: every order gives the same outboxes.

## Findings

| source | as written | input that shows it | evidently intended | confidence | as-written member | corrected member |
|---|---|---|---|---|---|---|
| practice-1/coroutine/coroutine.c:333 | the bounds test rejects `cid > len`, so it accepts `cid == len` | `co_status(0)` on an empty registry reads slot 0, which holds no coroutine | reject `cid >= len` | high, not executed | Coroutine.StatusGuardAdmitsLen | Coroutine.StatusGuardExact |
| practice-3/fuse/keibot.c:103-104 | `IS_DIR` and `IS_REG` compare `mode & ~0111` with the type, which keeps the read and write permission bits | the root directory, mode `S_IFDIR \| 0755`, is not a directory to `IS_DIR`; a 0444 file from `keibot_open` is not regular to `IS_REG` | compare `mode & S_IFMT` with the type | high, not executed | Keibot.TypeTestsAsWrittenMissPermissions | Keibot.TypeTestsCorrected |
| practice-3/fuse/keibot.c:369-375 | a growing write reallocates to `offset + bytes` and then stores the NUL at index `offset + bytes` | a 1-byte write at offset 0 to a new file reallocates to 1 byte and writes index 1 | reallocate to `offset + bytes + 1` | high, not executed | Keibot.WriteNulOutOfBoundsAsWritten | Keibot.WriteNulInBounds |
