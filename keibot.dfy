/**
 * The in-memory file table of the keibot FUSE file system
 * (practice-3/fuse/keibot.c).  The circular doubly-linked list of
 * file_entry records is a sequence in list order (oldest first); a FUSE
 * file handle, a raw pointer to an entry, is the entry's index.  Results
 * follow the source: 0 or a byte count on success, a negated errno code
 * on failure.
 */
module Keibot {
  import opened Wrappers
  import opened Lookup
  import opened KeibotPath

  // Linux errno values.
  const ENOENT: int := 2
  const EEXIST: int := 17
  const EISDIR: int := 21
  const ENAMETOOLONG: int := 36
  const ENOTEMPTY: int := 39
  const EISNAM: int := 120

  const BLOCK_SIZE: nat := 512

  // File type bits of st_mode and the permission sets the source uses.
  const S_IFMT: bv32 := 0xF000
  const S_IFDIR: bv32 := 0x4000
  const S_IFREG: bv32 := 0x8000
  const EXEC_BITS: bv32 := 0x49     // 0111
  const MODE_0755: bv32 := 0x1ED
  const MODE_0444: bv32 := 0x124

  // Flags of rename(2).
  const RENAME_NOREPLACE: int := 1
  const RENAME_EXCHANGE: int := 2

  /** list_add between the nodes at i - 1 and i. */
  function ListAdd<T>(xs: seq<T>, i: nat, x: T): (ys: seq<T>)
    requires i <= |xs|
    ensures |ys| == |xs| + 1 && ys[i] == x
    ensures forall j | 0 <= j < i :: ys[j] == xs[j]
    ensures forall j | i < j < |ys| :: ys[j] == xs[j - 1]
  {
    xs[..i] + [x] + xs[i..]
  }

  /** list_add_tail: insertion just before the head, at the end of the list. */
  function ListAddTail<T>(xs: seq<T>, x: T): (ys: seq<T>)
    ensures ys == xs + [x]
  {
    ListAdd(xs, |xs|, x)
  }

  /** list_del: the node at i unlinked, its neighbours joined. */
  function ListDel<T>(xs: seq<T>, i: nat): (ys: seq<T>)
    requires i < |xs|
    ensures |ys| == |xs| - 1
    ensures forall j | 0 <= j < i :: ys[j] == xs[j]
    ensures forall j | i <= j < |ys| :: ys[j] == xs[j + 1]
  {
    xs[..i] + xs[i + 1..]
  }

  /** Unlinking a node right after linking it in restores the list. */
  lemma ListDelUndoesAdd<T>(xs: seq<T>, i: nat, x: T)
    requires i <= |xs|
    ensures ListDel(ListAdd(xs, i, x), i) == xs
  {
  }

  /** Unlinking keeps every other node: only one copy of the unlinked value goes. */
  lemma ListDelKeepsOthers<T>(xs: seq<T>, i: nat)
    requires i < |xs|
    ensures multiset(ListDel(xs, i)) + multiset{xs[i]} == multiset(xs)
  {
    assert xs == xs[..i] + [xs[i]] + xs[i + 1..];
  }

  /** IS_DIR as written: the mask ~0111 clears only the execute bits. */
  predicate IsDirAsWritten(mode: bv32)
  {
    mode & !EXEC_BITS == S_IFDIR
  }

  /** IS_REG as written. */
  predicate IsRegAsWritten(mode: bv32)
  {
    mode & !EXEC_BITS == S_IFREG
  }

  /**
   * With read or write permission set the as-written tests fail: the
   * directories the file system creates itself (mode 0755) are not
   * directories to IS_DIR, and neither the files keibot_open creates
   * (mode 0444) nor a 0644 file are regular to IS_REG.
   */
  lemma TypeTestsAsWrittenMissPermissions()
    ensures !IsDirAsWritten(S_IFDIR | MODE_0755)
    ensures !IsRegAsWritten(S_IFREG | 0x1A4)
    ensures !IsRegAsWritten(S_IFREG | MODE_0444)
  {
  }

  /** The corrected tests: the file type field alone. */
  predicate IsDir(mode: bv32)
  {
    mode & S_IFMT == S_IFDIR
  }

  predicate IsReg(mode: bv32)
  {
    mode & S_IFMT == S_IFREG
  }

  /**
   * The corrected tests see the type whatever the permissions, never both
   * at once, and agree with the as-written ones wherever those answer yes.
   */
  lemma TypeTestsCorrected(mode: bv32, perm: bv32)
    requires perm & !0xFFF == 0
    ensures IsDir(S_IFDIR | perm) && !IsReg(S_IFDIR | perm)
    ensures IsReg(S_IFREG | perm) && !IsDir(S_IFREG | perm)
    ensures IsDirAsWritten(mode) ==> IsDir(mode)
    ensures IsRegAsWritten(mode) ==> IsReg(mode)
  {
  }

  /** st_blocks for a size: whole 512-byte blocks, rounded up. */
  function Blocks(size: nat): nat
  {
    (size + BLOCK_SIZE - 1) / BLOCK_SIZE
  }

  lemma BlocksCoverSize(size: nat)
    ensures Blocks(size) * BLOCK_SIZE >= size
    ensures size > 0 ==> (Blocks(size) - 1) * BLOCK_SIZE < size
    ensures size == 0 <==> Blocks(size) == 0
  {
  }

  /**
   * A file_entry: path, st_mode, the bytes of the content, st_size,
   * st_blocks and the size of the content buffer (0 for a NULL buffer).
   */
  datatype Entry = Entry(path: string, mode: bv32, content: string, size: nat, blocks: nat, alloc: nat)

  /**
   * The entry invariant: a non-empty path, size and blocks that describe
   * the content, and a buffer with room for the content and its NUL (only
   * a directory has no buffer, and then no content).
   */
  predicate EntryOk(e: Entry)
  {
    && |e.path| > 0
    && |e.content| == e.size
    && e.blocks == Blocks(e.size)
    && (e.size < e.alloc || (e.alloc == 0 && e.size == 0 && IsDir(e.mode)))
  }

  /** new_file with an empty content: strdup("") when `buffer`, NULL otherwise. */
  function NewEntry(path: string, mode: bv32, buffer: bool): (e: Entry)
    requires |path| > 0
    requires !buffer ==> IsDir(mode)
    ensures EntryOk(e) && e.path == path && e.mode == mode && e.size == 0 && e.blocks == 0
  {
    Entry(path, mode, "", 0, Blocks(0), if buffer then 1 else 0)
  }

  function EntryPath(e: Entry): string
  {
    e.path
  }

  /** find_entry: the first entry, in list order, whose path is `path`. */
  function Find(es: seq<Entry>, path: string): (r: Option<nat>)
    ensures r.Some? ==> r.value < |es| && es[r.value].path == path
    ensures r.Some? ==> forall j | 0 <= j < r.value :: es[j].path != path
    ensures r.None? <==> forall j | 0 <= j < |es| :: es[j].path != path
  {
    FirstWithKey(es, EntryPath, path)
  }

  ghost predicate UniquePaths(es: seq<Entry>)
  {
    forall i, j | 0 <= i < j < |es| :: es[i].path != es[j].path
  }

  /** Appending the entry of an absent path makes it found at the end. */
  lemma {:induction false} FindAppendAbsent(es: seq<Entry>, e: Entry)
    requires Find(es, e.path).None?
    ensures Find(es + [e], e.path) == Some(|es|)
    decreases |es|
  {
    if |es| == 0 {
      assert es + [e] == [e];
    } else {
      assert (es + [e])[0] == es[0];
      assert (es + [e])[1..] == es[1..] + [e];
      FindAppendAbsent(es[1..], e);
    }
  }

  /** Appending an entry for an absent path keeps paths unique, and the lookups of every other path. */
  lemma AppendKeepsUnique(es: seq<Entry>, e: Entry)
    requires UniquePaths(es) && Find(es, e.path).None?
    ensures UniquePaths(es + [e])
    ensures Find(es + [e], e.path) == Some(|es|)
    ensures forall p | p != e.path :: Find(es + [e], p) == Find(es, p)
  {
    FindAppendAbsent(es, e);
    forall p | p != e.path
      ensures Find(es + [e], p) == Find(es, p)
    {
      FindAppend(es, e, p);
    }
    var ys := es + [e];
    forall i, j | 0 <= i < j < |ys|
      ensures ys[i].path != ys[j].path
    {
      assert ys[i] == es[i];
      if j < |es| {
        assert ys[j] == es[j];
      }
    }
  }

  lemma FindAppend(es: seq<Entry>, e: Entry, p: string)
    requires e.path != p
    ensures Find(es + [e], p) == Find(es, p)
  {
    var es' := es + [e];
    assert forall j | 0 <= j < |es| :: es'[j] == es[j];
    var a, b := Find(es', p), Find(es, p);
    if b.Some? {
      assert es'[b.value].path == p;
      assert a.Some? && a.value < |es| && es[a.value].path == p;
    }
  }

  /** With unique paths, unlinking the entry of `path` removes that path and keeps every other entry. */
  lemma DelRemovesOnlyThat(es: seq<Entry>, i: nat)
    requires UniquePaths(es) && i < |es|
    ensures UniquePaths(ListDel(es, i))
    ensures Find(ListDel(es, i), es[i].path).None?
    ensures forall j | 0 <= j < |es| && j != i :: Find(ListDel(es, i), es[j].path).Some?
  {
    var ys := ListDel(es, i);
    forall j | 0 <= j < |es| && j != i
      ensures Find(ys, es[j].path).Some?
    {
      if j < i {
        assert ys[j].path == es[j].path;
      } else {
        assert ys[j - 1].path == es[j].path;
      }
    }
  }

  /** The number of entries lying under `path`: the counting loop of keibot_rmdir. */
  function CountUnder(es: seq<Entry>, path: string): nat
    requires |path| > 0
    requires forall i | 0 <= i < |es| :: |es[i].path| > 0
  {
    if es == [] then 0
    else CountUnder(es[..|es| - 1], path) + (if IsParentPath(path, es[|es| - 1].path, false) then 1 else 0)
  }

  /** The count is zero exactly when no entry lies under the path. */
  lemma {:induction false} CountUnderZero(es: seq<Entry>, path: string)
    requires |path| > 0
    requires forall i | 0 <= i < |es| :: |es[i].path| > 0
    ensures CountUnder(es, path) == 0 <==> forall i | 0 <= i < |es| :: !IsParentPath(path, es[i].path, false)
  {
    if es != [] {
      CountUnderZero(es[..|es| - 1], path);
    }
  }

  /** The names keibot_readdir lists for the strict children of `path`, in list order. */
  function Children(es: seq<Entry>, path: string): seq<string>
    requires |path| > 0
    requires forall i | 0 <= i < |es| :: |es[i].path| > 0
  {
    if es == [] then []
    else
      var last := es[|es| - 1];
      Children(es[..|es| - 1], path) + (if IsParentPath(path, last.path, true) then [RelativeName(path, last.path)] else [])
  }

  /** Scanning one more entry lists its name exactly when it is a strict child. */
  lemma ChildrenStep(es: seq<Entry>, i: nat, path: string)
    requires |path| > 0 && i < |es|
    requires forall k | 0 <= k < |es| :: |es[k].path| > 0
    ensures Children(es[..i + 1], path)
            == Children(es[..i], path) + (if IsParentPath(path, es[i].path, true) then [RelativeName(path, es[i].path)] else [])
  {
    assert es[..i + 1][..i] == es[..i];
  }

  /** The loop of keibot_readdir over the list: the names of the strict children of path, in list order. */
  method ChildNames(es: seq<Entry>, path: string) returns (kids: seq<string>)
    requires |path| > 0
    requires forall k | 0 <= k < |es| :: |es[k].path| > 0
    ensures kids == Children(es, path)
  {
    kids := [];
    for i := 0 to |es|
      invariant kids == Children(es[..i], path)
    {
      ChildrenStep(es, i, path);
      if IsParentPath(path, es[i].path, true) {
        kids := kids + [RelativeName(path, es[i].path)];
      }
    }
    assert es[..|es|] == es;
  }

  /** Every listed name is a strict child: the directory, '/', and the name give an entry's path. */
  lemma {:induction false} ChildrenAreEntries(es: seq<Entry>, path: string)
    requires |path| > 0
    requires forall i | 0 <= i < |es| :: |es[i].path| > 0
    ensures forall k | 0 <= k < |Children(es, path)| ::
              exists i | 0 <= i < |es| :: Stripped(path) + "/" + Children(es, path)[k] == Stripped(es[i].path)
  {
    if es != [] {
      var init := es[..|es| - 1];
      var last := es[|es| - 1];
      ChildrenAreEntries(init, path);
      var cs := Children(es, path);
      assert cs == Children(init, path) + (if IsParentPath(path, last.path, true) then [RelativeName(path, last.path)] else []);
      forall k | 0 <= k < |cs|
        ensures exists i | 0 <= i < |es| :: Stripped(path) + "/" + cs[k] == Stripped(es[i].path)
      {
        if k < |Children(init, path)| {
          var i :| 0 <= i < |init| && Stripped(path) + "/" + Children(init, path)[k] == Stripped(init[i].path);
          assert cs[k] == Children(init, path)[k];
          assert es[i] == init[i];
          assert Stripped(path) + "/" + cs[k] == Stripped(es[i].path);
        } else {
          RelativeNameJoins(path, last.path);
          assert cs[k] == RelativeName(path, last.path);
          assert Stripped(path) + "/" + cs[k] == Stripped(es[|es| - 1].path);
        }
      }
    } else {
      assert Children(es, path) == [];
    }
  }

  /** The buffer size write_file leaves as written: realloc to offset + bytes on growth. */
  function WriteAllocAsWritten(e: Entry, offset: nat, bytes: nat): nat
  {
    if offset + bytes > e.size then offset + bytes else e.alloc
  }

  /** Every growing write puts its NUL at offset + bytes, one past the buffer just reallocated. */
  lemma WriteNulOutOfBoundsAsWritten(e: Entry, offset: nat, bytes: nat)
    requires offset + bytes > e.size
    ensures offset + bytes >= WriteAllocAsWritten(e, offset, bytes)
  {
  }

  /** A one-byte write to a fresh file already writes out of bounds. */
  lemma WriteNulOutOfBoundsExample()
    ensures var e := NewEntry("/f", S_IFREG | 0x1A4, true);
            WriteAllocAsWritten(e, 0, 1) == 1
  {
  }

  /** The corrected size: room for the NUL as well. */
  function WriteAlloc(e: Entry, offset: nat, bytes: nat): nat
  {
    if offset + bytes > e.size then offset + bytes + 1 else e.alloc
  }

  /** With the entry invariant, the corrected write's NUL always lands inside the buffer. */
  lemma WriteNulInBounds(e: Entry, offset: nat, bytes: nat)
    requires EntryOk(e) && !IsDir(e.mode)
    ensures offset + bytes < WriteAlloc(e, offset, bytes)
  {
  }

  /**
   * The entry after write_file: the content up to the offset kept (up to
   * the old end when the offset lies beyond it), `buf` at the offset, and
   * nothing after it.  Bytes between the old end and a later offset are
   * whatever the reallocated buffer held; the model stores NULs there.
   */
  function WriteEntry(e: Entry, buf: string, offset: nat): Entry
    requires |e.content| == e.size
  {
    var kept := if offset <= e.size then e.content[..offset] else e.content + seq(offset - e.size, _ => '\0');
    var size := offset + |buf|;
    e.(content := kept + buf, size := size, blocks := Blocks(size), alloc := WriteAlloc(e, offset, |buf|))
  }

  /** What write_file promises, and that the entry invariant survives it. */
  lemma WriteEntryOk(e: Entry, buf: string, offset: nat)
    requires EntryOk(e) && !IsDir(e.mode)
    ensures var w := WriteEntry(e, buf, offset);
            && EntryOk(w)
            && w.path == e.path && w.mode == e.mode
            && w.size == offset + |buf|
            && w.content[offset..] == buf
            && var keep := if offset <= e.size then offset else e.size;
               w.content[..keep] == e.content[..keep]
  {
    var w := WriteEntry(e, buf, offset);
    WriteNulInBounds(e, offset, |buf|);
    assert w.content[offset..] == buf;
  }

  /** keibot_read's count: min(max(size - offset, 0), bytes). */
  function ReadCount(e: Entry, bytes: nat, offset: nat): nat
  {
    var avail := if e.size > offset then e.size - offset else 0;
    if avail < bytes then avail else bytes
  }

  /** The bytes keibot_read copies out. */
  function ReadBytes(e: Entry, bytes: nat, offset: nat): (data: string)
    requires |e.content| == e.size
    ensures |data| == ReadCount(e, bytes, offset) <= bytes
    ensures offset < e.size ==> data == e.content[offset..offset + |data|]
  {
    if offset >= e.size then [] else e.content[offset..offset + ReadCount(e, bytes, offset)]
  }

  /** Reading back right after a write returns exactly what was written. */
  lemma ReadAfterWrite(e: Entry, buf: string, offset: nat)
    requires EntryOk(e) && !IsDir(e.mode)
    ensures ReadBytes(WriteEntry(e, buf, offset), |buf|, offset) == buf
  {
    WriteEntryOk(e, buf, offset);
  }

  /** A regular file's write from the table's point of view: directories are left alone. */
  function WriteAt(es: seq<Entry>, i: nat, buf: string, offset: nat): seq<Entry>
    requires i < |es| && EntryOk(es[i])
  {
    if IsDir(es[i].mode) then es else es[i := WriteEntry(es[i], buf, offset)]
  }

  /** A write changes one entry's content and nothing about any path, so unique paths stay unique. */
  lemma WriteAtKeepsPaths(es: seq<Entry>, i: nat, buf: string, offset: nat)
    requires i < |es| && EntryOk(es[i])
    ensures |WriteAt(es, i, buf, offset)| == |es|
    ensures forall j | 0 <= j < |es| :: WriteAt(es, i, buf, offset)[j].path == es[j].path
    ensures forall j | 0 <= j < |es| && j != i :: WriteAt(es, i, buf, offset)[j] == es[j]
    ensures UniquePaths(es) ==> UniquePaths(WriteAt(es, i, buf, offset))
  {
    var w := WriteAt(es, i, buf, offset);
    if UniquePaths(es) {
      forall a, b | 0 <= a < b < |w|
        ensures w[a].path != w[b].path
      {
        assert w[a].path == es[a].path && w[b].path == es[b].path;
      }
    }
  }

  /** The table after a rename that gets past the checks: dest unlinked, src's entry renamed. */
  function Renamed(es: seq<Entry>, s: nat, d: Option<nat>, dest: string): (r: seq<Entry>)
    requires s < |es| && (d.Some? ==> d.value < |es|)
    ensures (forall i | 0 <= i < |es| :: |es[i].path| > 0) && |dest| > 0 ==> forall j | 0 <= j < |r| :: |r[j].path| > 0
  {
    var es1 := es[s := es[s].(path := dest)];
    if d.Some? then ListDel(es1, d.value) else es1
  }

  /** The entry invariant survives a rename, and so do unique paths. */
  lemma RenameKeepsInvariants(es: seq<Entry>, src: string, dest: string)
    requires forall i | 0 <= i < |es| :: EntryOk(es[i])
    requires |dest| > 0 && src != dest && Find(es, src).Some?
    ensures var r := Renamed(es, Find(es, src).value, Find(es, dest), dest);
            && (forall i | 0 <= i < |r| :: EntryOk(r[i]))
            && (UniquePaths(es) ==> UniquePaths(r))
  {
    RenamedEntriesOk(es, Find(es, src).value, Find(es, dest), dest);
    if UniquePaths(es) {
      RenameMoves(es, src, dest);
    }
  }

  /** Retargeting one entry to a non-empty path, and dropping another, keeps every entry well formed. */
  lemma RenamedEntriesOk(es: seq<Entry>, s: nat, d: Option<nat>, dest: string)
    requires forall i | 0 <= i < |es| :: EntryOk(es[i])
    requires |dest| > 0 && s < |es| && (d.Some? ==> d.value < |es|)
    ensures var r := Renamed(es, s, d, dest);
            forall i | 0 <= i < |r| :: EntryOk(r[i])
  {
    var es1 := es[s := es[s].(path := dest)];
    assert forall i | 0 <= i < |es1| :: EntryOk(es1[i]);
  }

  /**
   * Renaming a directory walks the table for entries under the old name
   * and stops at assert(0) on the first one: the rename goes through only
   * when, after the entry is renamed, nothing lies under `src`.
   */
  predicate RenameNoAbort(es: seq<Entry>, src: string, dest: string, flags: int)
    requires |src| > 0 && |dest| > 0 && forall i | 0 <= i < |es| :: |es[i].path| > 0
  {
    var s := Find(es, src);
    var d := Find(es, dest);
    !SameUpToCap(src, dest) && s.Some? && IsDir(es[s.value].mode) && !(flags == RENAME_NOREPLACE && d.Some?) ==>
      var r := Renamed(es, s.value, d, dest);
      forall j | 0 <= j < |r| :: !IsParentPath(src, r[j].path, false)
  }

  /** strncmp(a, b, MAX_FILE_NAME_LEN) == 0. */
  predicate SameUpToCap(a: string, b: string)
  {
    a[..Strnlen(a)] == b[..Strnlen(b)]
  }

  /** With unique paths, a path known to be present is found at its own index. */
  lemma FindUnique(es: seq<Entry>, i: nat)
    requires UniquePaths(es) && i < |es|
    ensures Find(es, es[i].path) == Some(i)
  {
  }

  /** Giving one entry an absent path keeps paths unique: the old path is gone, the new one found there. */
  lemma RetargetKeepsUnique(es: seq<Entry>, s: nat, dest: string)
    requires UniquePaths(es) && s < |es| && Find(es, dest).None?
    ensures var es1 := es[s := es[s].(path := dest)];
            && UniquePaths(es1)
            && Find(es1, es[s].path).None?
            && Find(es1, dest) == Some(s)
  {
    var es1 := es[s := es[s].(path := dest)];
    forall i, j | 0 <= i < j < |es1|
      ensures es1[i].path != es1[j].path
    {
      if i != s && j != s {
        assert es1[i] == es[i] && es1[j] == es[j];
      }
    }
    forall j | 0 <= j < |es1|
      ensures es1[j].path != es[s].path
    {
      if j != s {
        assert es1[j] == es[j];
      }
    }
    FindUnique(es1, s);
  }

  /** Renaming a source onto an existing destination: unlinking first, then retargeting. */
  lemma RenamedOverDest(es: seq<Entry>, s: nat, d: nat, dest: string)
    requires s < |es| && d < |es| && s != d
    ensures var t := if s < d then s else s - 1;
            && t < |ListDel(es, d)|
            && ListDel(es, d)[t] == es[s]
            && Renamed(es, s, Some(d), dest) == ListDel(es, d)[t := es[s].(path := dest)]
  {
    var t := if s < d then s else s - 1;
    var es1 := es[s := es[s].(path := dest)];
    var lhs := ListDel(es1, d);
    var rhs := ListDel(es, d)[t := es[s].(path := dest)];
    forall k | 0 <= k < |lhs|
      ensures lhs[k] == rhs[k]
    {
      var j := if k < d then k else k + 1;
      assert lhs[k] == es1[j];
      assert k != t ==> rhs[k] == es[j];
    }
    assert lhs == rhs;
  }

  /** With unique paths, a rename keeps them unique, and dest now names the old source entry. */
  lemma RenameMoves(es: seq<Entry>, src: string, dest: string)
    requires UniquePaths(es) && src != dest
    requires Find(es, src).Some?
    ensures var s := Find(es, src).value;
            var r := Renamed(es, s, Find(es, dest), dest);
            && UniquePaths(r)
            && Find(r, src).None?
            && Find(r, dest).Some?
            && r[Find(r, dest).value] == es[s].(path := dest)
            && |r| == |es| - (if Find(es, dest).Some? then 1 else 0)
  {
    var s := Find(es, src).value;
    match Find(es, dest)
    case None =>
      RetargetKeepsUnique(es, s, dest);
    case Some(d) =>
      RenamedOverDest(es, s, d, dest);
      DelRemovesOnlyThat(es, d);
      RetargetKeepsUnique(ListDel(es, d), if s < d then s else s - 1, dest);
  }

  /** The emoji table keibot_init fills in chatbot mode, in order. */
  const EMOJIS: seq<string> := ["( ﾟ▽ﾟ)/\n",
                                  "(°∀°)b\n",
                                  "(¬‿¬)\n",
                                  "(▼-▼*)\n",
                                  "(´Д｀)\n"]

  /** The options of chatbot mode: the bot names and their directories. */
  datatype BotOptions = BotOptions(chatbot: bool, bot1: string, bot2: string, bot1Path: string, bot2Path: string)

  /** What the options must give for the mirroring in chatbot mode to be defined. */
  predicate OptionsOk(o: BotOptions)
  {
    o.chatbot ==> |o.bot1Path| > 0 && |o.bot2Path| > 0
  }

  /** The selection of keibot_write in chatbot mode: an ":emoji<n>" buffer writes emoji n at 0 instead. */
  predicate EmojiSelected(o: BotOptions, buf: string)
  {
    o.chatbot && EmojiId(buf) >= 0
  }

  class FileTable {
    var entries: seq<Entry>
    const options: BotOptions

    ghost predicate Valid()
      reads this
    {
      && OptionsOk(options)
      && forall i | 0 <= i < |entries| :: EntryOk(entries[i])
    }

    /**
     * keibot_init: the root directory and, in chatbot mode, the two bot
     * directories "/" + bot1 and "/" + bot2.
     */
    constructor (chatbot: bool, bot1: string, bot2: string)
      requires chatbot ==> |bot1| + 1 < MAX_FILE_NAME_LEN && |bot2| + 1 < MAX_FILE_NAME_LEN
      ensures Valid()
      ensures options.chatbot == chatbot
      ensures chatbot ==> options == BotOptions(true, bot1, bot2, "/" + bot1, "/" + bot2)
      ensures entries == [NewEntry("/", S_IFDIR | MODE_0755, false)]
                         + (if chatbot then [NewEntry("/" + bot1, S_IFDIR | MODE_0755, false),
                                             NewEntry("/" + bot2, S_IFDIR | MODE_0755, false)]
                            else [])
    {
      TypeTestsCorrected(S_IFDIR | MODE_0755, MODE_0755);
      entries := [NewEntry("/", S_IFDIR | MODE_0755, false)];
      if chatbot {
        var p1 := Concatenate("/", bot1);
        var p2 := Concatenate("/", bot2);
        options := BotOptions(true, bot1, bot2, p1, p2);
        entries := entries + [NewEntry(p1, S_IFDIR | MODE_0755, false)];
        entries := entries + [NewEntry(p2, S_IFDIR | MODE_0755, false)];
      } else {
        options := BotOptions(false, bot1, bot2, "", "");
      }
    }

    /** find_entry: the scan of the list from the head. */
    method FindEntry(path: string) returns (r: Option<nat>)
      ensures r == Find(entries, path)
    {
      var i := 0;
      while i < |entries|
        invariant 0 <= i <= |entries|
        invariant forall j | 0 <= j < i :: entries[j].path != path
      {
        if entries[i].path == path {
          return Some(i);
        }
        i := i + 1;
      }
      return None;
    }

    /** keibot_getattr: -ENOENT, else the status of the entry (here, the entry itself). */
    method GetAttr(path: string) returns (err: int, st: Option<Entry>)
      ensures Find(entries, path).None? ==> err == -ENOENT && st.None?
      ensures Find(entries, path).Some? ==> err == 0 && st == Some(entries[Find(entries, path).value])
    {
      var found := FindEntry(path);
      if found.None? {
        return -ENOENT, None;
      }
      return 0, Some(entries[found.value]);
    }

    /** create_file: -ENAMETOOLONG past 1024 bytes, -EEXIST for a present path, else a new empty entry at the tail. */
    method CreateFile(path: string, mode: bv32) returns (err: int)
      requires Valid() && |path| > 0
      modifies this
      ensures Valid()
      ensures UniquePaths(old(entries)) ==> UniquePaths(entries)
      ensures err == if |path| > MAX_FILE_NAME_LEN then -ENAMETOOLONG
                     else if Find(old(entries), path).Some? then -EEXIST
                     else 0
      ensures entries == if err == 0 then ListAddTail(old(entries), NewEntry(path, mode, true)) else old(entries)
    {
      if |path| > MAX_FILE_NAME_LEN {
        return -ENAMETOOLONG;
      }
      var found := FindEntry(path);
      if found.Some? {
        return -EEXIST;
      }
      if UniquePaths(entries) {
        AppendKeepsUnique(entries, NewEntry(path, mode, true));
      }
      entries := ListAddTail(entries, NewEntry(path, mode, true));
      err := 0;
    }

    /**
     * keibot_mknod and keibot_mkdir: create_file of `path` with the type
     * bits added, then, in chatbot mode, of its mirror under the other
     * bot (whose result is returned).
     */
    method MakeNode(path: string, mode: bv32, dir: bool) returns (err: int)
      requires Valid() && |path| > 0
      requires options.chatbot && |path| <= MAX_FILE_NAME_LEN && Find(entries, path).None? ==>
                 SwitchBotFits(options.bot1Path, options.bot2Path, options.bot1, options.bot2, path)
      modifies this
      ensures Valid()
      ensures UniquePaths(old(entries)) ==> UniquePaths(entries)
      ensures var m := (if dir then S_IFDIR else S_IFREG) | mode;
              var first := if |path| > MAX_FILE_NAME_LEN then -ENAMETOOLONG
                           else if Find(old(entries), path).Some? then -EEXIST else 0;
              var after := if first == 0 then old(entries) + [NewEntry(path, m, true)] else old(entries);
              var mirror := if first == 0 && options.chatbot
                            then SwitchBot(options.bot1Path, options.bot2Path, options.bot1, options.bot2, path)
                            else None;
              match mirror
              case None => err == first && entries == after
              case Some(p) =>
                && err == (if |p| > MAX_FILE_NAME_LEN then -ENAMETOOLONG else if Find(after, p).Some? then -EEXIST else 0)
                && entries == if err == 0 then after + [NewEntry(p, m, true)] else after
    {
      var m := (if dir then S_IFDIR else S_IFREG) | mode;
      err := CreateFile(path, m);
      if err < 0 || !options.chatbot {
        return;
      }
      var mirror := SwitchBot(options.bot1Path, options.bot2Path, options.bot1, options.bot2, path);
      if mirror.Some? {
        err := CreateFile(mirror.value, m);
      }
    }

    /** keibot_unlink: -ENOENT, -EISDIR for a directory, else the entry unlinked. */
    method Unlink(path: string) returns (err: int)
      requires Valid()
      modifies this
      ensures Valid()
      ensures UniquePaths(old(entries)) ==> UniquePaths(entries)
      ensures match Find(old(entries), path)
              case None => err == -ENOENT && entries == old(entries)
              case Some(i) =>
                if IsDir(old(entries)[i].mode) then err == -EISDIR && entries == old(entries)
                else err == 0 && entries == ListDel(old(entries), i)
    {
      var found := FindEntry(path);
      if found.None? {
        return -ENOENT;
      }
      if IsDir(entries[found.value].mode) {
        return -EISDIR;
      }
      if UniquePaths(entries) {
        DelRemovesOnlyThat(entries, found.value);
      }
      entries := ListDel(entries, found.value);
      err := 0;
    }

    /** The counting loop of keibot_rmdir. */
    method CountEntriesUnder(path: string) returns (count: nat)
      requires Valid() && |path| > 0
      ensures count == CountUnder(entries, path)
    {
      count := 0;
      var i := 0;
      while i < |entries|
        invariant 0 <= i <= |entries|
        invariant count == CountUnder(entries[..i], path)
      {
        assert entries[..i + 1][..i] == entries[..i];
        if IsParentPath(path, entries[i].path, false) {
          count := count + 1;
        }
        i := i + 1;
      }
      assert entries[..i] == entries;
    }

    /** keibot_rmdir: -ENOENT, -EISNAM for a regular file, -ENOTEMPTY with anything under it, else unlinked. */
    method Rmdir(path: string) returns (err: int)
      requires Valid() && |path| > 0
      modifies this
      ensures Valid()
      ensures UniquePaths(old(entries)) ==> UniquePaths(entries)
      ensures match Find(old(entries), path)
              case None => err == -ENOENT && entries == old(entries)
              case Some(i) =>
                if IsReg(old(entries)[i].mode) then err == -EISNAM && entries == old(entries)
                else if exists j | 0 <= j < |old(entries)| :: IsParentPath(path, old(entries)[j].path, false)
                then err == -ENOTEMPTY && entries == old(entries)
                else err == 0 && entries == ListDel(old(entries), i)
    {
      var found := FindEntry(path);
      if found.None? {
        return -ENOENT;
      }
      if IsReg(entries[found.value].mode) {
        return -EISNAM;
      }
      var count := CountEntriesUnder(path);
      CountUnderZero(entries, path);
      if count > 0 {
        return -ENOTEMPTY;
      }
      if UniquePaths(entries) {
        DelRemovesOnlyThat(entries, found.value);
      }
      entries := ListDel(entries, found.value);
      err := 0;
    }

    /** write_file on the entry at i, with the corrected buffer size. */
    method WriteFile(i: nat, buf: string, offset: nat) returns (err: int)
      requires Valid() && i < |entries|
      modifies this
      ensures Valid()
      ensures UniquePaths(old(entries)) ==> UniquePaths(entries)
      ensures err == if IsDir(old(entries)[i].mode) then -EISDIR else 0
      ensures entries == WriteAt(old(entries), i, buf, offset)
    {
      var e := entries[i];
      if IsDir(e.mode) {
        return -EISDIR;
      }
      WriteNulInBounds(e, offset, |buf|);
      WriteEntryOk(e, buf, offset);
      WriteAtKeepsPaths(entries, i, buf, offset);
      entries := entries[i := WriteEntry(e, buf, offset)];
      err := 0;
    }

    /**
     * keibot_write on the handle h (None: no handle).  In chatbot mode a
     * buffer ":emoji<n>" with n >= 0 writes emoji n at offset 0 instead;
     * the source indexes the table unchecked, so n must be in range.
     * After a successful write, the mirror under the other bot, if it
     * exists, receives the same write.  The byte count of `buf` is
     * returned whatever the mirror write gave.
     */
    method Write(path: string, h: Option<nat>, buf: string, offset: nat) returns (r: int)
      requires Valid() && |path| > 0
      requires h.Some? ==> h.value < |entries|
      requires h.Some? && EmojiSelected(options, buf) ==> EmojiId(buf) < |EMOJIS|
      requires options.chatbot && h.Some? && !IsDir(entries[h.value].mode) ==>
                 SwitchBotFits(options.bot1Path, options.bot2Path, options.bot1, options.bot2, path)
      modifies this
      ensures Valid()
      ensures UniquePaths(old(entries)) ==> UniquePaths(entries)
      ensures r == if h.None? then -ENOENT else if IsDir(old(entries)[h.value].mode) then -EISDIR else |buf|
      ensures h.None? || IsDir(old(entries)[h.value].mode) ==> entries == old(entries)
      ensures h.Some? && !IsDir(old(entries)[h.value].mode) ==>
                var data := if EmojiSelected(options, buf) then EMOJIS[EmojiId(buf)] else buf;
                var at := if EmojiSelected(options, buf) then 0 else offset;
                var first := WriteAt(old(entries), h.value, data, at);
                var mirror := if options.chatbot
                              then SwitchBot(options.bot1Path, options.bot2Path, options.bot1, options.bot2, path)
                              else None;
                if mirror.Some? && Find(first, mirror.value).Some?
                then entries == WriteAt(first, Find(first, mirror.value).value, data, at)
                else entries == first
    {
      if h.None? {
        return -ENOENT;
      }
      var data := buf;
      var at := offset;
      if options.chatbot {
        var id := EmojiId(buf);
        if id >= 0 {
          data, at := EMOJIS[id], 0;
        }
      }
      var ret := WriteFile(h.value, data, at);
      if ret < 0 {
        return ret;
      }
      if options.chatbot {
        var mirror := SwitchBot(options.bot1Path, options.bot2Path, options.bot1, options.bot2, path);
        if mirror.Some? {
          var other := FindEntry(mirror.value);
          if other.Some? {
            ret := WriteFile(other.value, data, at);
          }
        }
      }
      r := |buf|;
    }

    /** keibot_read on the handle h: -ENOENT, -EISDIR, else the byte count and the bytes copied. */
    method Read(h: Option<nat>, bytes: nat, offset: nat) returns (r: int, data: string)
      requires Valid()
      requires h.Some? ==> h.value < |entries|
      ensures h.None? ==> r == -ENOENT && data == []
      ensures h.Some? && IsDir(entries[h.value].mode) ==> r == -EISDIR && data == []
      ensures h.Some? && !IsDir(entries[h.value].mode) ==>
                && r == ReadCount(entries[h.value], bytes, offset)
                && data == ReadBytes(entries[h.value], bytes, offset)
    {
      data := [];
      if h.None? {
        return -ENOENT, [];
      }
      var e := entries[h.value];
      if IsDir(e.mode) {
        return -EISDIR, [];
      }
      var n := ReadCount(e, bytes, offset);
      if n > 0 {
        data := e.content[offset..offset + n];
      }
      r := n;
    }

    /**
     * keibot_rename without the directory-subtree branch.  Equal names
     * (compared over the first 1024 bytes) do nothing; RENAME_EXCHANGE
     * aborts; so does renaming a directory with anything under its old
     * name, which the source guards with assert(0).
     */
    method Rename(src: string, dest: string, flags: int) returns (err: int)
      requires Valid() && |src| > 0 && |dest| > 0
      requires !SameUpToCap(src, dest) ==> flags != RENAME_EXCHANGE
      requires RenameNoAbort(entries, src, dest, flags)
      modifies this
      ensures Valid()
      ensures UniquePaths(old(entries)) ==> UniquePaths(entries)
      ensures SameUpToCap(src, dest) ==> err == 0 && entries == old(entries)
      ensures !SameUpToCap(src, dest) ==>
                match Find(old(entries), src)
                case None => err == -ENOENT && entries == old(entries)
                case Some(s) =>
                  if flags == RENAME_NOREPLACE && Find(old(entries), dest).Some?
                  then err == -EEXIST && entries == old(entries)
                  else err == 0 && entries == Renamed(old(entries), s, Find(old(entries), dest), dest)
    {
      if SameUpToCap(src, dest) {
        return 0;
      }
      var s := FindEntry(src);
      var d := FindEntry(dest);
      if s.None? {
        return -ENOENT;
      }
      if flags == RENAME_NOREPLACE && d.Some? {
        return -EEXIST;
      }
      RenameKeepsInvariants(entries, src, dest);
      entries := Renamed(entries, s.value, d, dest);
      err := 0;
    }

    /**
     * keibot_readdir: "." always, ".." except for "/", then -ENOENT for a
     * missing directory or else the names of its strict children.
     */
    method ReadDir(path: string) returns (err: int, names: seq<string>)
      requires Valid() && |path| > 0
      ensures var dots := if path == "/" then ["."] else [".", ".."];
              match Find(entries, path)
              case None => err == -ENOENT && names == dots
              case Some(_) => err == 0 && names == dots + Children(entries, path)
    {
      names := if path == "/" then ["."] else [".", ".."];
      var found := FindEntry(path);
      if found.None? {
        return -ENOENT, names;
      }
      var kids := ChildNames(entries, path);
      names := names + kids;
      err := 0;
    }

    /**
     * keibot_open: a missing path is created as a read-only regular file;
     * a directory gives -EISDIR, anything else a handle.
     */
    method Open(path: string) returns (err: int, h: Option<nat>)
      requires Valid() && |path| > 0
      modifies this
      ensures Valid()
      ensures UniquePaths(old(entries)) ==> UniquePaths(entries)
      ensures entries == if Find(old(entries), path).Some? then old(entries)
                         else ListAddTail(old(entries), NewEntry(path, S_IFREG | MODE_0444, true))
      ensures Find(entries, path).Some?
      ensures var e := entries[Find(entries, path).value];
              if IsDir(e.mode) then err == -EISDIR && h.None?
              else err == 0 && h == Find(entries, path)
    {
      var found := FindEntry(path);
      if found.None? {
        if UniquePaths(entries) {
          AppendKeepsUnique(entries, NewEntry(path, S_IFREG | MODE_0444, true));
        }
        entries := ListAddTail(entries, NewEntry(path, S_IFREG | MODE_0444, true));
        found := Some(|entries| - 1);
        assert Find(entries, path) == found by {
          FindAppendAbsent(old(entries), entries[|entries| - 1]);
        }
      }
      if IsDir(entries[found.value].mode) {
        return -EISDIR, None;
      }
      return 0, found;
    }

    /**
     * keibot_opendir: a missing path is created as a directory without a
     * buffer; a regular file gives -EISNAM, anything else a handle.
     */
    method OpenDir(path: string) returns (err: int, h: Option<nat>)
      requires Valid() && |path| > 0
      modifies this
      ensures Valid()
      ensures UniquePaths(old(entries)) ==> UniquePaths(entries)
      ensures entries == if Find(old(entries), path).Some? then old(entries)
                         else ListAddTail(old(entries), NewEntry(path, S_IFDIR | MODE_0755, false))
      ensures Find(entries, path).Some?
      ensures var e := entries[Find(entries, path).value];
              if IsReg(e.mode) then err == -EISNAM && h.None?
              else err == 0 && h == Find(entries, path)
    {
      var found := FindEntry(path);
      if found.None? {
        TypeTestsCorrected(S_IFDIR | MODE_0755, MODE_0755);
        if UniquePaths(entries) {
          AppendKeepsUnique(entries, NewEntry(path, S_IFDIR | MODE_0755, false));
        }
        entries := ListAddTail(entries, NewEntry(path, S_IFDIR | MODE_0755, false));
        found := Some(|entries| - 1);
        assert Find(entries, path) == found by {
          FindAppendAbsent(old(entries), entries[|entries| - 1]);
        }
      }
      if IsReg(entries[found.value].mode) {
        return -EISNAM, None;
      }
      return 0, found;
    }
  }
}
