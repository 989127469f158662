# Lochfolk core in Dafny

Lochfolk is a virtual file system. Its namespace is a tree of '/'-separated
names rooted at "/". A name is one of four things:

- a directory;
- a string constant, either an owned std::string or a borrowed view;
- a file on the host;
- an entry of a zip archive.

Files get into the tree by the `mount_*` calls. `exists`, `is_directory`,
`file_size` and `open` look them up. This project models three parts of
Lochfolk and proves properties of the model:

1. **Path text** (`include/lochfolk/path.hpp`, `src/path.cpp`):
   - `path_view`'s `is_absolute`, `parent_path`, `filename`, `extension` and
     `split_view`;
   - `path`'s `append`, `/=`, `/` and `concat`;
   - `lexically_normal`, modelled exactly as written.

   Modules `Paths` and `PathNormal`. The worked cases of
   `test/test_path.cpp` are in `PathExamples` and `PathNormalExamples`.
2. **The namespace tree** (`src/file_node.hpp`, `src/file_node.cpp`,
   `src/vfs.cpp`, `include/lochfolk/vfs.hpp`):
   - The payload variant and its per-kind dispatch are module `FileNodes`.
   - `find_impl`, `mkdir_impl` and `mount_impl` are functions on an arena of
     nodes, in module `NamespaceTree`. A node is named by its index; the
     root is node 0; a directory maps child names to indices. `WellFormed`
     is the invariant: the root is a parentless directory, every child
     comes after its directory and links back to it, and every archive
     entry still holds its archive.
   - `mount_impl` is modelled once, with an `overwrite` flag. The older copy
     in `include/lochfolk/vfs.hpp` has no flag and never replaces, so it is
     the same function with `overwrite = false`.
   - Class `Vfs.FileSystem` holds the arena as a field. Its methods run the
     loops of `find_impl`, `mkdir_impl`, `mount_impl`, `mount_sys_dir` and
     `mount_zip_archive` in place, each proved against the functions above.
   - `VfsScenario` replays the `mount_string_constant` case of
     `test/test_vfs.cpp` on the class.
3. **Helpers**:
   - the quote-wrapping error messages of `src/errmsg.cpp` (module `ErrMsg`);
   - the cursor arithmetic of `span_buf` in `include/lochfolk/utility.hpp`
     (module `SpanBuffer`). It is a state record, used by the lemmas, and a
     class whose methods update it in place.

The host is modelled as oracles, passed in as parameters:

- `FileNodes.Host` answers what a system file or an archive entry reads back
  and how big it is.
- `Vfs.HostFs` answers these `std::filesystem` questions: existence,
  regular file, directory, absolute path, the recursive directory walk, and
  opening a zip archive.

Points where the code does not do what its names suggest:

- `split_view` yields no root segment: `"/data/text/example.txt"` gives
  `data`, `text`, `example.txt` (`Paths.SegmentsOfRoot`,
  `PathExamples.SegmentsExample`).
- `lexically_normal` is not idempotent: `"a/.//b"` gives `"a//b"`, and a
  second pass gives `"a/b"` (`PathNormalExamples.NormalizeNotIdempotent`).
- `"../..a////"` normalizes to `"a/"`, not `"../..a/"`: the first two dots of
  `..a` are taken for a parent reference. The second dot of `..` is then seen
  again as the start of `.a` and skipped
  (`PathNormalExamples.ParentsBeforeDottedName`).
- The test calls `vfs.read` and calls `mount_string_constant` without an
  overwrite argument. Both come from `include/lochfolk/vfs.hpp`, whose
  `mount_impl` never overwrites. Under that header the remount of `"1013"`
  would leave `"123 456"` in place (`VfsScenario.RemountWithoutOverwriteKeepsText`).
  Yet the test expects `1013`. `src/vfs.cpp` implements `open` and takes an
  `overwrite` flag. The replay uses those: `open` with mode `binary`, which
  is `read`'s default in that header, and `overwrite = true` for the remount
  (`VfsScenario.RemountOverwrites`). The header declaring the flag's default
  is not part of this model.

## Model

| member | source | states |
|---|---|---|
| Paths.IsAbsoluteScan | include/lochfolk/path.hpp:72-102 | the component loop returns true iff the text is non-empty, starts with '/', and no '/'-delimited component, the last included, is "." or ".." |
| Paths.DotFreeSegments | include/lochfolk/path.hpp:18-27 | text with no "." or ".." component splits into segments none of which is "." or ".." |
| Paths.AbsoluteSegmentsAreNames | include/lochfolk/path.hpp:72-102 | the segments of an absolute path, which the tree walks, are never "." or ".." |
| Paths.ParentPath | include/lochfolk/path.hpp:105-122 | the parent is always a prefix of its input |
| Paths.ParentPathFixedPoint | include/lochfolk/path.hpp:105-122 | parent_path returns its input unchanged exactly when the input is "/" or has no separator before its last character (so relative text without a separator comes back as it is) |
| Paths.Filename | include/lochfolk/path.hpp:125-137 | empty for empty text or text ending in '/'; otherwise a suffix of the input without '/', preceded by '/' unless it is the whole text |
| Paths.ExtensionOf | include/lochfolk/path.hpp:140-154 | a suffix of the filename that starts with its last '.', has no other '.', and is shorter than the filename; it is empty iff no '.' occurs after index 0 |
| Paths.SegmentsAreWords | include/lochfolk/path.hpp:18-27 | every segment of split_view is non-empty and free of '/' |
| Paths.SegmentsConcat | include/lochfolk/path.hpp:18-27 | the segments of a + "/" + b are a's segments followed by b's: split_view reads left to right and drops empty pieces |
| Paths.SegmentsOfRoot | include/lochfolk/path.hpp:56-63 | "/" and "" have no segments: no root element is produced |
| Paths.ParentFilenameSegments | include/lochfolk/path.hpp:105-137 | for a rooted path with a filename, the segments are the parent's segments followed by the filename |
| Paths.JoinAbsolute | include/lochfolk/path.hpp:263-271 | appending a strictly absolute path replaces the left-hand side |
| Paths.JoinSegments | include/lochfolk/path.hpp:272-290 | appending text that is not strictly absolute adds exactly its segments to the left-hand side's |
| Paths.Path.constructor | include/lochfolk/path.hpp:171-184 | the path holds the given text |
| Paths.Path.Append | include/lochfolk/path.hpp:263-305 | append and /= change the text in place to the joined text |
| Paths.Path.Concat | include/lochfolk/path.hpp:321-343 | concat and += append the text with no separator |
| Paths.Slash | include/lochfolk/path.hpp:307-319 | operator/ returns a fresh path holding the joined text and leaves the left operand alone |
| PathExamples.IsAbsoluteExamples | test/test_path.cpp:12-29 | "/data/a.txt" is absolute, "audio/a.wav", "data" and "" are not; a "." or ".." component makes a path not absolute, ".hidden" does not |
| PathExamples.ParentPathOfFile | test/test_path.cpp:72-76 | the parent of "/data/text/example.txt" is "/data/text" |
| PathExamples.ParentPathOfDirectory | test/test_path.cpp:78-95 | one trailing '/' is ignored: "/data/text/" gives "/data", "/data/" gives "/" |
| PathExamples.ParentPathOfTopLevel | test/test_path.cpp:84-102 | "/data" and "/" both give "/" |
| PathExamples.ParentPathOfRelative | test/test_path.cpp:105-118 | "data" gives itself and "data/example.txt" gives "data" |
| PathExamples.FilenameExamples | test/test_path.cpp:121-134 | "bar.txt", ".bar", "" and "" for the four cases of the test |
| PathExamples.ExtensionExamples | include/lochfolk/path.hpp:140-154 | ".txt" for "bar.txt", none for ".bar", ".bar" for "..bar", ".gz" for "archive.tar.gz" |
| PathExamples.SegmentsExample | test/test_path.cpp:136-161 | "/data/text/example.txt" splits into exactly "data", "text", "example.txt" |
| PathExamples.JoinExamples | test/test_path.cpp:33-68 | "/data" and "/data/" joined with "audio/a.wav" both give "/data/audio/a.wav"; an absolute rhs replaces; an empty side gives the other |
| PathExamples.SlashExample | include/lochfolk/path.hpp:307-312 | "/data/audio/a.wav" / "b.txt" is "/data/audio/a.wav/b.txt" |
| PathNormal.SkipSeparators | src/path.cpp:22-27 | the find_if lands on the first non-separator after the run, or the end |
| PathNormal.DotDot | src/path.cpp:39-57 | ".." leaves the root alone and turns an empty result into ".."; otherwise it drops one trailing '/' and cuts just after the previous '/', or empties the result when there is none |
| PathNormal.Scan | src/path.cpp:14-67 | the loop, branch for branch as written, from index i with the result built so far; a result started from a rooted prefix stays rooted |
| PathNormal.LexicallyNormal | src/path.cpp:6-73 | the loop computes lexically_normal as written: empty input gives empty output, and an empty result gives "." |
| PathNormal.NormalizeKeepsRoot | src/path.cpp:18-55 | input starting with '/' gives output starting with '/': a ".." against "/" is absorbed and popping never removes the leading '/' |
| PathNormal.NormalizeDots | src/path.cpp:31-71 | the output is "." or has no '.' outside a leading "..": "." and "./" are dropped and any '.' before another character is skipped |
| PathNormal.NormalizeWithoutDots | src/path.cpp:18-29 | on input without '.', the output is the input with each run of separators squeezed to one |
| PathNormal.NormalizeDropsDotInName | src/path.cpp:60-63 | as written, "a.txt" (no dot component) normalizes to "atxt" |
| PathNormal.NormalizeCorrectedWithoutDotComponents | src/path.cpp:31-63 | with '.' handling limited to "." and ".." components, a path without such components only has its separator runs squeezed |
| PathNormalExamples.ParentOfRootIsRoot | src/path.cpp:41-42 | "/.." normalizes to "/" |
| PathNormalExamples.LeadingParentLosesSeparator | src/path.cpp:39-47 | "../x" normalizes to "..x" |
| PathNormalExamples.ParentRemovesComponent | src/path.cpp:14-72 | "/a/../b/" normalizes to "/b/" |
| PathNormalExamples.RootParentBeforeName | src/path.cpp:31-67 | "/..a" normalizes to "/a" |
| PathNormalExamples.CurrentBeforeSeparator | src/path.cpp:18-63 | "a/.//b" normalizes to "a//b" |
| PathNormalExamples.TrailingParent | src/path.cpp:31-72 | "a/./b/.." normalizes to "a/" |
| PathNormalExamples.ParentsBeforeDottedName | src/path.cpp:31-67 | "../..a////" normalizes to "a/" |
| PathNormalExamples.NormalizeNotIdempotent | src/path.cpp:18-63 | normalizing "a//b", which is what "a/.//b" normalizes to, gives "a/b": the pass is not idempotent |
| ErrMsg.VfsErrMsg | src/errmsg.cpp:46-66 | the message is the prefix, a quote, the path, a quote, then the suffix; its length is their lengths plus 2 |
| ErrMsg.VfsErrMsgNoPrefix | src/errmsg.cpp:68-76 | the two-argument form is the quoted path followed by the suffix |
| ErrMsg.StdfsErrMsg | src/errmsg.cpp:5-34 | the host-path form has the same quote-wrapped shape over the native spelling |
| ErrMsg.StdfsErrMsgNoPrefix | src/errmsg.cpp:36-44 | the two-argument host-path form uses an empty prefix |
| ErrMsg.QuotedPathOfMessage | src/errmsg.cpp:46-66 | the path is read back out of a message from the lengths of its prefix and suffix |
| ErrMsg.VfsErrMsgInjective | src/errmsg.cpp:46-66 | with the same prefix and suffix, equal messages come from equal paths |
| ErrMsg.NotFoundMessage | test/test_vfs.cpp:44-51 | for /data/not/found the message is exactly "/data/not/found" in quotes, then " is not found" |
| SpanBuffer.Fresh | include/lochfolk/utility.hpp:32-35 | a constructed buffer has no span and null get and put areas |
| SpanBuffer.SetSpanState | include/lochfolk/utility.hpp:90-111 | span(sp) in the corrected form: the get area covers the span from position 0 under in; the put area covers it from 0, or from its end under ate, under out; areas the mode does not name are kept; the invariant holds |
| SpanBuffer.SetSpanAsWritten | include/lochfolk/utility.hpp:90-111 | span(sp) as written agrees with the corrected form except under out with ate |
| SpanBuffer.View | include/lochfolk/utility.hpp:79-88 | span() is the whole span unless out is set; under out it is the written part, within the span |
| SpanBuffer.ToInt | include/lochfolk/utility.hpp:182-191 | the static_cast to int wraps to 32 bits and keeps values that fit |
| SpanBuffer.Bump | include/lochfolk/utility.hpp:180-191 | gbump / pbump leave a null area null and keep an area's bounds; the position lands on the target whenever the distance fits an int (beyond that the static_cast wraps) |
| SpanBuffer.Target | include/lochfolk/utility.hpp:118-172 | beg aims at off exactly when 0 <= off <= size; end aims at off + base, where base is pptr - pbase in a write-only buffer and the size otherwise, exactly when off does not overflow past the largest offset and off + base lies in [0, size]; cur fails when in and out are both or neither requested, and otherwise aims at off + old exactly when -old <= off <= size - old, old being the requested area's position |
| SpanBuffer.SeekOffResult | include/lochfolk/utility.hpp:114-195 | seekoff returns -1 when there is no target; it returns the target when that is 0 or every requested area is set, and -1 otherwise |
| SpanBuffer.SeekOffFrame | include/lochfolk/utility.hpp:114-195 | a failed seek changes nothing, and a seek never touches the mode, the span or an area it was not asked to move |
| SpanBuffer.SeekOffMoves | include/lochfolk/utility.hpp:174-194 | on success each requested position becomes the returned value, and the invariant is kept |
| SpanBuffer.SeekCurAfterBeg | include/lochfolk/utility.hpp:148-168 | seeking by d from cur after seeking to a from beg is seeking to a + d from beg |
| SpanBuffer.SeekEndIsFromSize | include/lochfolk/utility.hpp:129-146 | for a buffer that reads, seeking by off from end is seeking to size + off from beg |
| SpanBuffer.SeekCurZero | include/lochfolk/utility.hpp:148-194 | seeking by 0 from cur returns the current position and changes nothing |
| SpanBuffer.ViewAfterSeek | include/lochfolk/utility.hpp:80-88 | under out only, after a seek span() is exactly the part before the put position |
| SpanBuffer.ViewWhenAppending | include/lochfolk/utility.hpp:80-111 | in the corrected span(sp), under out with ate, span() of a freshly set span is the whole span |
| SpanBuffer.ViewWhenAppendingAsWritten | include/lochfolk/utility.hpp:80-111 | as written, under out with ate, span() of a freshly set span is empty and starts at the span's end |
| SpanBuffer.AteOverrunAsWritten | include/lochfolk/utility.hpp:97-99 | as written, out with ate over 4 characters breaks the invariant: span() reports nothing and seekoff(2, beg, out) succeeds with pptr 2 past epptr |
| SpanBuffer.SpanThenSeekStaysInside | include/lochfolk/utility.hpp:90-195 | after the corrected span(sp), any seek keeps both positions inside the span |
| SpanBuffer.SpanBuf.constructor | include/lochfolk/utility.hpp:32 | the default buffer has mode in and out and no span |
| SpanBuffer.SpanBuf.WithMode | include/lochfolk/utility.hpp:34-35 | the buffer has the given mode and no span |
| SpanBuffer.SpanBuf.FromSpan | include/lochfolk/utility.hpp:37-44 | the buffer is the fresh one after span(sp) as written, setp(stop, stop) under out with ate included |
| SpanBuffer.SpanBuf.Move | include/lochfolk/utility.hpp:48-55 | the new buffer takes the other's mode, span and areas; the other keeps its mode with an empty span and null areas |
| SpanBuffer.SpanBuf.Swap | include/lochfolk/utility.hpp:72-77 | the two buffers exchange mode, span and areas |
| SpanBuffer.SpanBuf.MoveAssign | include/lochfolk/utility.hpp:59-70 | self-assignment changes nothing; otherwise this buffer takes rhs's state and rhs is left with this buffer's old mode only |
| SpanBuffer.SpanBuf.SetSpan | include/lochfolk/utility.hpp:90-111 | the fields become span(sp) as written of the old state, setp(stop, stop) under out with ate included |
| SpanBuffer.SpanBuf.CurrentSpan | include/lochfolk/utility.hpp:80-88 | span() const reads the fields as View does |
| SpanBuffer.SpanBuf.SeekOff | include/lochfolk/utility.hpp:114-195 | returns SeekOffResult and leaves SeekOffState of the old fields |
| SpanBuffer.SpanBuf.SeekPos | include/lochfolk/utility.hpp:197-200 | seekpos is seekoff from beg |
| FileNodes.StringLess | src/file_node.hpp:21-39 | the empty name is below every other name |
| FileNodes.NamesEquivalentIffEqual | src/file_node.hpp:41-43 | under string_compare two names are equivalent iff they are equal, so a directory holds at most one child per name |
| FileNodes.FileSize | src/file_node.cpp:137-146 | a directory's size is 0, a string constant's is its length, the other kinds ask the host |
| FileNodes.StringConstantOpen | src/file_node.cpp:13-34 | out is cleared; a borrowed view opens a span_buf over its characters, read from position 0 under in; owned text opens a string buffer |
| FileNodes.GetBuf | src/file_node.cpp:111-161 | a directory throws "bad file"; a system file fails only when the host cannot open it and otherwise opens with the given mode; a string constant and an archive entry open with out cleared (archive::getbuf clears it too) |
| FileNodes.ReadString | src/file_node.cpp:163-174 | a directory throws "bad file"; a string constant returns its text |
| FileNodes.ReadStringIgnoresCrlf | src/file_node.cpp:36-40 | only a system file's read depends on convert_crlf |
| FileNodes.StringConstantSizeIsLength | src/file_node.cpp:36-49 | what a string constant reads back has the length file_size reports |
| FileNodes.NodeMoveAssign | src/file_node.hpp:173-181 | the target takes the source's parent link and payload; self-assignment is a no-op |
| FileNodes.EntryMoveAssign | src/file_node.cpp:98-109 | the target takes the archive reference and offset, the source is left null with offset 0; self-assignment is a no-op |
| FileNodes.EntrySelfMoveUnchecked | src/file_node.cpp:98-109 | run on one entry as both sides without the self-check, the move assignment's steps leave the entry as it was: the check saves work only |
| NamespaceTree.Resolve | src/file_node.cpp:184-198 | a successful walk ends at a node of the arena |
| NamespaceTree.Find | src/file_node.cpp:177-199 | nothing for empty or not strictly absolute text, the root for "/", otherwise the walk over split_view's segments from the root |
| NamespaceTree.ResolveConcat | src/file_node.cpp:184-198 | walking two lists of names is walking the second from where the first ends |
| NamespaceTree.ResolveExtends | src/file_node.cpp:184-198 | a walk that succeeds still succeeds the same way after the tree grows |
| NamespaceTree.AddChild | src/file_node.cpp:218-225 | emplace appends a node whose parent is the directory, maps the name to it, and changes no other node |
| NamespaceTree.AddChildWellFormed | src/file_node.cpp:218-225 | inserting an empty directory or a file keeps the tree well formed |
| NamespaceTree.Mkdir | src/file_node.cpp:201-231 | on success the tree is well formed, has grown, and the result is a directory |
| NamespaceTree.MkdirBelowEmptySucceeds | src/file_node.cpp:210-225 | below a newly created (empty) directory no name can conflict |
| NamespaceTree.MkdirExtends | src/file_node.cpp:201-231 | mkdir_impl only adds: every old node and link stays |
| NamespaceTree.MkdirResolves | src/file_node.cpp:201-231 | afterwards every prefix of the names leads to a directory, and the whole list leads to the returned one |
| NamespaceTree.MkdirOfResolved | src/file_node.cpp:210-217 | when the names already lead to a directory, nothing is created and that directory is returned |
| NamespaceTree.MkdirFoundOrCreated | src/file_node.cpp:210-225 | mkdir_impl either found every name, changing nothing and returning the directory they lead to, or returns an empty directory it created |
| NamespaceTree.MkdirTwice | src/file_node.cpp:210-227 | a second mkdir_impl of the same names creates nothing and returns the same directory |
| NamespaceTree.MkdirFailure | src/file_node.cpp:210-216 | mkdir_impl fails only at a name that leads to a file, with `"<name>" already exists` |
| NamespaceTree.MkdirBlockedFails | src/file_node.cpp:210-216 | a name along the way that leads to a file makes mkdir_impl fail |
| NamespaceTree.Mount | src/file_node.hpp:220-263 | on success the tree stays well formed and the returned node exists |
| NamespaceTree.ReplaceWellFormed | src/file_node.hpp:239-246 | overwriting a child in place with a file, whatever the child was, keeps the tree well formed |
| NamespaceTree.MountFailsIffBlocked | src/file_node.hpp:229-236 | mount_impl fails exactly when a name on the way to the parent leads to a file |
| NamespaceTree.MountLeaf | src/file_node.hpp:229-262 | the leaf sits under the filename in the directory mkdir_impl returned; an inserted or replaced leaf holds the payload; a leaf left alone means overwrite was off |
| NamespaceTree.MountMakesParents | src/file_node.hpp:231 | after a mount every directory above the leaf exists |
| NamespaceTree.MountResolves | src/file_node.hpp:229-262 | after a mount at a path with a filename, the path resolves to the returned node |
| NamespaceTree.MountExisting | src/file_node.hpp:237-249 | where a node exists, overwrite replaces it in place whatever its kind and reports true; without it nothing changes and the result is false |
| NamespaceTree.MountAbsent | src/file_node.hpp:250-262 | where no node exists, the filename is missing from the directory mkdir_impl returned, and the payload is appended there as a new node reported true, with or without overwrite |
| Vfs.DirItemsAreTheFiles | src/vfs.cpp:266-279 | every non-directory entry of the walk is mounted as a system file under its absolute host path; nothing else is; an all-directory walk mounts nothing |
| Vfs.ZipItemsAreTheFiles | src/vfs.cpp:291-308 | every file entry is mounted as an entry of the archive at its offset; nothing else is; an all-directory archive mounts nothing |
| Vfs.MountAll | src/vfs.cpp:293-308 | a run of mounts keeps the tree well formed; an empty run changes nothing |
| Vfs.MountAllAppend | src/vfs.cpp:293-308 | mounting a + b is mounting a, then b unless a stopped at a throw, whose mounts stay |
| Vfs.NotFound | src/vfs.cpp:328 | the lookup error is vfs_err_msg(p, " is not found") |
| Vfs.FileSystem.constructor | src/vfs.cpp:186-190 | the tree is one root directory with a null parent, and "/" resolves to a directory |
| Vfs.FileSystem.FindImpl | src/vfs.cpp:369-391 | the loop returns Find |
| Vfs.FileSystem.MkdirDescend | src/vfs.cpp:396-419 | one step either creates the missing name, so the arena becomes AddChild of the old one with an empty directory and the new index is returned; or enters the existing child directory of that name with the arena unchanged; or throws with the arena unchanged; in every case the remaining run is the old run's rest |
| Vfs.FileSystem.MkdirImpl | src/vfs.cpp:393-423 | the tree and result become Mkdir's; when it throws, the tree is unchanged |
| Vfs.FileSystem.MountImpl | src/vfs.cpp:425-464 | the tree and result become Mount's; when it throws, the tree is unchanged |
| Vfs.FileSystem.MountImplNoOverwrite | include/lochfolk/vfs.hpp:152-182 | the older mount_impl is Mount without overwrite: at an existing path it changes nothing and returns that node with false |
| Vfs.FileSystem.Exists | src/vfs.cpp:311-314 | exists iff find_impl resolves the path |
| Vfs.FileSystem.IsDirectoryAt | src/vfs.cpp:316-322 | false for an unresolved path, otherwise the node's kind |
| Vfs.FileSystem.FileSizeAt | src/vfs.cpp:324-331 | `"p" is not found` for an unresolved path, otherwise the node's size |
| Vfs.FileSystem.Open | src/vfs.cpp:333-341 | `"p" is not found` for an unresolved path; otherwise the node's buffer under mode with in added; only a system file's buffer can write |
| Vfs.FileSystem.MountStringConstant | src/vfs.cpp:194-227 | mounts the owned or borrowed text by mount_impl |
| Vfs.FileSystem.MountSysFile | src/vfs.cpp:229-252 | a missing host file throws " does not exist" and one that is not regular throws " is not a regular file", both before any change; otherwise its absolute path is mounted |
| Vfs.FileSystem.MountItem | src/vfs.cpp:273-278 | one mount of a run: on success the arena is exactly Mount's result for this item at its target, and the rest of the run is left to do |
| Vfs.FileSystem.MountSysDir | src/vfs.cpp:254-280 | a source that is not a directory throws before any change; otherwise the tree becomes the run over the walk's files at p / relative path |
| Vfs.FileSystem.MountZipArchive | src/vfs.cpp:282-309 | an archive that fails to open throws before any change; otherwise the tree becomes the run over its file entries at p / name, and an empty archive mounts nothing |
| VfsScenario.FirstMount | test/test_vfs.cpp:8-10 | mounting "123 456" at /data/text/example.txt on a fresh system creates /data, /data/text and the leaf |
| VfsScenario.QueriesAfterFirstMount | test/test_vfs.cpp:13-20 | "/", "/data" and "/data/text" are directories, the leaf is a file of size 7 reading "123 456", /data/not/found is absent |
| VfsScenario.OpenAfterFirstMount | test/test_vfs.cpp:23-30 | opening the borrowed text gives a read-only span_buf over its 7 characters from position 0 |
| VfsScenario.RemountOverwrites | test/test_vfs.cpp:32-34 | mounting "1013" over the leaf with overwrite replaces it in place |
| VfsScenario.RemountWithoutOverwriteKeepsText | include/lochfolk/vfs.hpp:162-168 | with the older mount_impl the same remount leaves the tree as it was |
| VfsScenario.QueriesAfterRemount | test/test_vfs.cpp:33-42 | the leaf is still a file, reads "1013", and opens a string buffer over it |
| VfsScenario.MountAtDirectoryPath | src/file_node.hpp:229-262 | mounting at "/data/text/" on a fresh system creates only /data and puts the leaf there under the name "", so "/data/text/" does not resolve afterwards |
| VfsScenario.ReplayFirstMount | test/test_vfs.cpp:8-20 | on the class, the eight checks of the test answer true, true, true, true, true, true, true, false |
| VfsScenario.ReplayRemount | test/test_vfs.cpp:23-42 | the first open gives a span over 7 characters; after the remount, open gives "1013" |
| VfsScenario.ReplayMissing | test/test_vfs.cpp:44-51 | opening a path that is not mounted gives `"p" is not found` |
| VfsScenario.ReplayMountStringConstant | test/test_vfs.cpp:4-52 | the whole test on the class yields what it expects, down to the exact message "\"/data/not/found\" is not found" |

## Left out

- System files and archives are not read: sizes, contents and opening them are host oracles (`FileNodes.Host`, `Vfs.HostFs`). The minizip wrapper and `zip_archive` are not part of this model.
- The recursive directory walk is the oracle's entry list. `stdfs::relative(...).generic_u8string()` is taken as the entry's relative name.
- `ivfstream` and `stream.hpp` are left out: `open` returns the stream buffer the stream would own.
- The `shared_ptr` ownership of archives is a numeric archive identity. A moved-from entry has no archive, so `FileSize`, `GetBuf` and `ReadString` require an entry that still holds one.
- `list_files` / `list_files_impl`: debug printing to a stream.
- The Windows `u8string` branch of `stdfs_err_msg`: a platform encoding; the POSIX native spelling is modelled.
- `span_buf::setbuf` is left out; it only calls `span`. The `default` case of seekoff's switch cannot arise, because `SeekDir` has three values.
- Paths.Path.SameAs: `operator==` on paths compares the text, which is sequence equality; it has no contract of its own.
- Paths.IsAbsolute, FileNodes.IsDirectory, SpanBuffer.SeekOffState, Paths.Extension, Paths.Segments, Paths.Join, PathNormal.Normalize, Vfs.DirItems, Vfs.ZipItems and IosBase.Union carry no ensures of their own. Their properties are stated by the lemmas and methods built on them. Paths.IsAbsolute is the declarative rule of `is_absolute` (include/lochfolk/path.hpp:72-102): `Paths.IsAbsoluteScan` proves the loop decides it, and `Paths.AbsoluteSegmentsAreNames` states what it guarantees the tree walk. FileNodes.IsDirectory is `file_node::is_directory` (src/file_node.cpp:132-135), which holds iff the payload is a directory; `Vfs.FileSystem.IsDirectoryAt` states what it answers. SpanBuffer.SeekOffState is the state seekoff leaves (include/lochfolk/utility.hpp:174-194); `SpanBuffer.SeekOffFrame`, `SpanBuffer.SeekOffMoves` and `SpanBuffer.SeekCurZero` state that it is unchanged when the result is -1 and otherwise has each requested area bumped to the result.
- The string constant's `std::variant<std::string, std::string_view>` is a text with a `borrowed` flag. The `const char*` overload of `mount_string_constant` borrows, like the `std::string_view` one.
- Names compare as `char` sequences; signedness of `char` in `operator<` is not modelled.
- The `overwrite` default of `mount_string_constant` and the `read` call of the test come from a header that is not part of this model.
- Vfs.MountAll: requires every target path to be strictly absolute, which `mount_impl` only asserts. The same requirement is on Vfs.FileSystem.MountSysDir and Vfs.FileSystem.MountZipArchive.
- SpanBuffer.SeekOffMoves: proved for spans of at most INT_MAX characters, past which gbump's int argument wraps; `ToInt` models the wrap.
- FileNodes.FileSize: sizes are unbounded naturals; the `std::uint64_t` width is not modelled.
- A mount at a path ending in '/' has an empty filename. `parent_path` drops the trailing '/' and then the last name, so the node is mounted under the name "" in the directory above: "/a/b/" puts it under "/a", and "/a/b/" itself does not resolve afterwards (`VfsScenario.MountAtDirectoryPath`). The lemmas about resolving the leaf therefore assume a non-empty filename.
- When overwrite replaces a directory, the C++ variant assignment destroys its whole subtree. In the arena the old descendants stay behind, unreachable from the root, with a file as their recorded ancestor. No lookup can reach them, so no query answers differently; the arena's size is not a property of the file system.
- The access context (current directory, `to_fullpath`) and removal of mounts appear in no file modelled here.

## Findings

| source | as written | input that shows it | evidently intended | confidence | as-written member | corrected member |
|---|---|---|---|---|---|---|
| src/path.cpp:60-63 | a '.' followed by any character other than '.' or '/' is skipped, wherever it stands | "a.txt" normalizes to "atxt" | only "." and ".." components are special; a dot inside a name is kept | high; not executed | PathNormal.NormalizeDropsDotInName | PathNormal.NormalizeCorrectedWithoutDotComponents |
| include/lochfolk/utility.hpp:97-99 | under out with ate, span(sp) calls setp(stop, stop), putting pbase at the end | a 4-character span with mode out and ate: span() reports 0 characters and seekoff(2, beg, out) leaves pptr 2 past epptr | setp(start, stop) with pptr moved to the end, as std::spanbuf does | high; not executed | SpanBuffer.AteOverrunAsWritten | SpanBuffer.SpanThenSeekStaysInside |
