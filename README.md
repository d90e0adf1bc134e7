# SharpFileSystem core, modelled in Dafny

SharpFileSystem is a C# library that puts one virtual file-system API in front
of several back ends. This project models five self-contained parts of it and
proves properties of the models:

- **`CircularBuffer<T>`** (`circular_buffer.dfy`, module `CircularBuffers`): a
  fixed-capacity ring over an array. Its `head` and `tail` wrap *lazily*: each
  loop tests `index == capacity` before an access and increments after it, so
  an index may rest at `capacity`, which stands for slot 0. The class keeps
  the source's fields (`buffer`, `capacity`, `head`, `tail`, `size`,
  `allowOverflow`) and updates them in place. Each method is proved against the
  value-level functions `View` (the logical contents) and `Written` (the array
  after a write loop).
- **`ConcatStream`** (`concat_stream.dfy`, module `ConcatStreams`): a read- and
  seek-only stream over several streams. It keeps an offset table of prefix
  sums of the stream lengths and a cursor `streamIndex`. The underlying streams
  are the `Stream` objects of `streams.dfy`: fixed bytes with a movable position.
- **`TypeCombinationDictionary<T>`** (`type_combination_dictionary.dfy`, module
  `TypeCombinations`): an ordered registry answering a (source type,
  destination type) query with its first matching registration. Types are
  abstract; the caller supplies the "is assignable from" relation.
- **`StandardEntityMover.Move`** (`entity_mover.dfy`, module `EntityMovers`):
  moves a file, or a directory tree recursively, from one file system to
  another. The file systems are the in-memory `MemoryFileSystem` of
  `memory_file_system.dfy`: a map from path segments to a file's bytes or a
  directory marker. Its listing, opening, creating and deleting behave like the
  corresponding operations of `PhysicalFileSystem`. Open streams are tracked so
  that the precondition "nothing is open" of `Delete` is checked.
- **The path mapping of `PhysicalFileSystem`** (`physical_file_system.dfy`,
  module `PhysicalFileSystems`). This covers root normalisation, virtual to
  host paths and back (with `\` as the host separator), and the kind checks of
  `CreateFile`, `OpenFile` and `CreateDirectory`.

`FileSystemPath.cs` is not part of this model. The path type the modelled
code uses is `Paths.FileSystemPath` (`file_system_path.dfy`): a sequence of
segment names plus a directory flag. Its text form is `Text`, and `Parse`
reads a text back. The model proves the two are inverse on valid paths and
valid texts. `errors.dfy` (module `Exceptions`) holds the exception kinds the
code throws. It also holds `Result`, `Outcome` and `Option`, which carry an
exception or a null back to the caller.

Natural numbers model counts, offsets and positions. An exception the source
throws itself becomes a `Failure`/`Fail` result. An exception a .NET call
would raise on a bad argument (an index out of range, say) becomes a
precondition.

The model follows the code in three places where the behaviour may be
unexpected:

- The `Capacity` setter (SharpFileSystem/IO/CircularBuffer.cs:39-54) repacks
  the contents into slots 0 onwards but keeps `_head` and `_tail` (see
  Findings).
- `ConcatStream.Read` (SharpFileSystem/IO/ConcatStream.cs:62-71) never moves
  `_streamIndex`, so one read returns bytes of the current stream only.
- `MemoryFileSystem.GetEntities` fails with `ArgumentError` for a file path.
  `PhysicalFileSystem.GetEntities` (SharpFileSystem/FileSystems/PhysicalFileSystem.cs:11-19)
  makes no kind check and leaves that case to the host's listing call.

## Model

| member | source | states |
|---|---|---|
| `CircularBuffers.CircularBuffer.constructor` | SharpFileSystem/IO/CircularBuffer.cs:19-31 | a new buffer is empty (size, head and tail 0), owns a fresh array of the given capacity, and its tail follows its head |
| `CircularBuffers.CircularBuffer.Create` | SharpFileSystem/IO/CircularBuffer.cs:19-31 | fails with an argument error exactly when the capacity is negative; otherwise yields an empty valid buffer of that capacity |
| `CircularBuffers.CircularBuffer.SetCapacity` | SharpFileSystem/IO/CircularBuffer.cs:39-54 | equal capacity: nothing changes; below the size: fails out of range and nothing changes; otherwise a fresh array of the new length holds the old contents at slots 0 to size-1, head, tail and size keep their values, and the contents are unchanged when the head was 0 |
| `CircularBuffers.CircularBuffer.SetCapacityRepacking` | SharpFileSystem/IO/CircularBuffer.cs:39-54 | the setter with head reset to 0 and tail to the size: same outcomes, and the contents are unchanged whatever the old head, with the tail following the head |
| `CircularBuffers.CircularBuffer.Contains` | SharpFileSystem/IO/CircularBuffer.cs:59-76 | true exactly when the item is one of the logical contents |
| `CircularBuffers.CircularBuffer.Clear` | SharpFileSystem/IO/CircularBuffer.cs:78-83 | size, head and tail become 0, the contents empty, and the array and its elements are untouched |
| `CircularBuffers.CircularBuffer.CopyAllTo` | SharpFileSystem/IO/CircularBuffer.cs:85 | the whole contents, in order, land at the target index; the rest of the target is unchanged |
| `CircularBuffers.CircularBuffer.CopyTo` | SharpFileSystem/IO/CircularBuffer.cs:175-187 | more than size elements: fails out of range with the target untouched; otherwise the first count elements of the contents land at the target index and nothing else of the target changes |
| `CircularBuffers.StoreRun` | SharpFileSystem/IO/CircularBuffer.cs:105-111 | the write loop leaves the array equal to `Written` of the old array and the source run, and the tail at `Advance` of the old tail by the run length |
| `CircularBuffers.WrittenAt` | SharpFileSystem/IO/CircularBuffer.cs:105-111 | a written run of at most capacity elements fills the slots from the tail on, wrapping once, and leaves every other slot alone |
| `CircularBuffers.PutAppends` | SharpFileSystem/IO/CircularBuffer.cs:104-113 | writing into free room when the tail follows the head appends the written elements to the contents and keeps the tail following the head |
| `CircularBuffers.CircularBuffer.Put` | SharpFileSystem/IO/CircularBuffer.cs:102-115 | returns min(count, free room) without overflow and count with it; the array is the write loop's result, the size is min(size + written, capacity), the head never moves, and without overflow, when the tail followed the head, the contents become old contents followed by the written source run and the tail still follows |
| `CircularBuffers.CircularBuffer.PutItem` | SharpFileSystem/IO/CircularBuffer.cs:117-126 | `Put(T)` as written: a full non-overflowing buffer fails with buffer overflow and is untouched; otherwise the item is stored at the old tail, tail and size grow by one, the head stays, and when the tail followed the head the item is appended to the contents |
| `CircularBuffers.CircularBuffer.PutItemWrapping` | SharpFileSystem/IO/CircularBuffer.cs:117-126 | `Put(T)` with the wrap before the store, needing no tail below the capacity: a full non-overflowing buffer fails with buffer overflow and is untouched; otherwise the item is stored at the wrapped tail, the tail moves one past that slot, the size grows by one, the head stays, and when the tail followed the head the item is appended to the contents and the tail still follows |
| `CircularBuffers.SinglePutPastArray` | SharpFileSystem/IO/CircularBuffer.cs:117-126 | after `Put(T)` and `Get()` on a one-slot buffer, the buffer is empty but its tail rests at the capacity, where the next `Put(T)` as written stores |
| `CircularBuffers.CircularBuffer.Skip` | SharpFileSystem/IO/CircularBuffer.cs:129-134 | the head moves by count with at most one subtraction of the capacity; size and tail are unchanged; the contents become the size slots after the skipped ones |
| `CircularBuffers.SkipShiftsWindow` | SharpFileSystem/IO/CircularBuffer.cs:129-134 | after a skip the contents are the old size + count elements less the first count, not the old contents less count |
| `CircularBuffers.SkipBreaksTailFollowing` | SharpFileSystem/IO/CircularBuffer.cs:129-134 | a skip of 0 < count < capacity breaks the tail-follows-head relation |
| `CircularBuffers.LoadRun` | SharpFileSystem/IO/CircularBuffer.cs:150-156 | the read loop copies `View` of the array from the head into the target range, leaves the rest of the target alone, and ends the head at `Advance` |
| `CircularBuffers.GetDrops` | SharpFileSystem/IO/CircularBuffer.cs:149-158 | advancing the head by r while the size drops by r removes exactly the first r elements of the contents |
| `CircularBuffers.GetKeepsTailFollowing` | SharpFileSystem/IO/CircularBuffer.cs:149-158 | reading keeps the tail following the head |
| `CircularBuffers.CircularBuffer.Get` | SharpFileSystem/IO/CircularBuffer.cs:147-160 | returns min(count, size); the target range holds the first r elements in FIFO order and the rest of the target is unchanged; the contents lose exactly those; the size drops by r; the tail is unchanged |
| `CircularBuffers.CircularBuffer.GetItem` | SharpFileSystem/IO/CircularBuffer.cs:163-173 | `Get()` as written: an empty buffer fails with invalid operation and is unchanged; otherwise returns the first element, head + 1, size - 1, and the contents lose their first element |
| `CircularBuffers.CircularBuffer.GetItemWrapping` | SharpFileSystem/IO/CircularBuffer.cs:163-173 | `Get()` with the wrap before the read, needing no head below the capacity: an empty buffer fails with invalid operation and is unchanged; otherwise returns the first element, the head moves one past the wrapped head, the size drops by one, and the contents lose their first element |
| `CircularBuffers.SingleGetPastArray` | SharpFileSystem/IO/CircularBuffer.cs:163-173 | after `Put(T)`, `Get()` and a bulk `Put` of one element on a one-slot buffer, one element is stored but the head rests at the capacity, where `Get()` as written reads |
| `CircularBuffers.RepackKeepsStaleHead` | SharpFileSystem/IO/CircularBuffer.cs:39-54 | growing a buffer holding 6, 7 with head 1 leaves 6, 7 at slots 0 and 1 with head still 1, so the first logical element becomes 7 |
| `CircularBuffers.CircularBuffer.ToArray` | SharpFileSystem/IO/CircularBuffer.cs:205-210 | a fresh array holding exactly the contents, in order |
| `ConcatStreams.ConcatStream.constructor` | SharpFileSystem/IO/ConcatStream.cs:16-29 | the offset table holds the sum of the lengths of the streams before each one, the length is the sum of all lengths, the cursor is 0 |
| `ConcatStreams.ConcatStream.CurrentStream` | SharpFileSystem/IO/ConcatStream.cs:32 | the current stream is one of the concatenated streams |
| `ConcatStreams.ConcatStream.CurrentStreamOffset` | SharpFileSystem/IO/ConcatStream.cs:34 | the current stream starts at the sum of the lengths of the streams before it, and its range ends within the total length |
| `ConcatStreams.ConcatStream.Position` | SharpFileSystem/IO/ConcatStream.cs:42 | the logical position is at least the current stream's offset, and at most the total length while the current stream's own position is within that stream |
| `ConcatStreams.SumMonotone` | SharpFileSystem/IO/ConcatStream.cs:21-28 | the offsets never decrease along the table |
| `ConcatStreams.ContainingStreamUnique` | SharpFileSystem/IO/ConcatStream.cs:45-56 | at most one stream's range [offset, offset + length) holds a given position |
| `ConcatStreams.SomeStreamContains` | SharpFileSystem/IO/ConcatStream.cs:45-56 | every position in [0, length) lies in some stream's range |
| `ConcatStreams.LastRangeEnd` | SharpFileSystem/IO/ConcatStream.cs:23-28 | the last stream's range ends at the total length |
| `ConcatStreams.ConcatStream.ScanBackward` | SharpFileSystem/IO/ConcatStream.cs:45-49 | starting before the current stream, the cursor moves back to the stream whose range holds the position |
| `ConcatStreams.ConcatStream.ScanForward` | SharpFileSystem/IO/ConcatStream.cs:50-54 | starting past the current, non-last stream, the cursor moves forward to the stream holding the position, or stops at the last stream |
| `ConcatStreams.ConcatStream.SetPosition` | SharpFileSystem/IO/ConcatStream.cs:43-57 | the cursor lands on the stream whose range holds the value (for a value below the length), that stream's own position becomes value - offset, the position reads back as the value, and no other stream moves |
| `ConcatStreams.BackwardScanUnderflows` | SharpFileSystem/IO/ConcatStream.cs:46-49 | a negative position lies before every offset, so the backward scan steps below the first stream |
| `ConcatStreams.ForwardScanOverruns` | SharpFileSystem/IO/ConcatStream.cs:50-54 | on the last stream a position at or past the length passes the forward scan's first test, so the scan steps past the table |
| `ConcatStreams.ConcatStream.Read` | SharpFileSystem/IO/ConcatStream.cs:62-71 | reads from the current stream only: returns what that stream's `Read` returns, which for the modelled streams is what it has left up to count, non-zero unless the cursor is on the last stream, copies those bytes in order, and moves only that stream's position |
| `ConcatStreams.ConcatStream.Seek` | SharpFileSystem/IO/ConcatStream.cs:73-86 | the new position is offset (Begin), position + offset (Current) or length - offset (End), and is returned; as for `SetPosition`, the cursor lands on the stream whose range holds it (below the length), that stream's own position is the target less its offset, and no other stream moves |
| `ConcatStreams.SeekIntoSecondStream` | SharpFileSystem/IO/ConcatStream.cs:73-77 | over streams of lengths 5 and 7, seeking to 6 from the beginning puts the cursor on the second stream at its own position 1, and the first stream stays at 0 |
| `ConcatStreams.ConcatStream.SetLength` | SharpFileSystem/IO/ConcatStream.cs:88 | always fails as not supported |
| `ConcatStreams.ConcatStream.Write` | SharpFileSystem/IO/ConcatStream.cs:90 | always fails as not supported |
| `ConcatStreams.ConcatStream.Close` | SharpFileSystem/IO/ConcatStream.cs:92-97 | every underlying stream is closed, and so is this one |
| `TypeCombinations.Where` | SharpFileSystem/Collections/TypeCombinationDictionary.cs:11-17 | the filtered list holds only registrations that accept the query, and every accepting registration |
| `TypeCombinations.WhereConcat` | SharpFileSystem/Collections/TypeCombinationDictionary.cs:14-16 | filtering keeps list order: the filter of a concatenation is the concatenation of the filters |
| `TypeCombinations.FirstOfWhere` | SharpFileSystem/Collections/TypeCombinationDictionary.cs:19 | the filtered list is empty exactly when nothing accepts, and otherwise starts with the first accepting registration |
| `TypeCombinations.FirstSupported` | SharpFileSystem/Collections/TypeCombinationDictionary.cs:19 | none exactly when no registration accepts; otherwise the registration at the first accepting index |
| `TypeCombinations.FirstMatchUnique` | SharpFileSystem/Collections/TypeCombinationDictionary.cs:19 | the first match is unique |
| `TypeCombinations.DerivedQueryAnswered` | SharpFileSystem/Collections/TypeCombinationDictionary.cs:14-19 | for a reflexive, transitive assignability, a query for more derived types is answered by the same registration or an earlier one |
| `TypeCombinations.TypeCombinationDictionary.constructor` | SharpFileSystem/Collections/TypeCombinationDictionary.cs:9 | the registry starts empty |
| `TypeCombinations.TypeCombinationDictionary.GetSupportedRegistrations` | SharpFileSystem/Collections/TypeCombinationDictionary.cs:11-17 | the result holds only registered, accepting entries and every accepting registration |
| `TypeCombinations.TypeCombinationDictionary.GetSupportedRegistration` | SharpFileSystem/Collections/TypeCombinationDictionary.cs:19 | null exactly when no registration accepts; otherwise the first accepting registration in list order |
| `TypeCombinations.TypeCombinationDictionary.TryGetSupported` | SharpFileSystem/Collections/TypeCombinationDictionary.cs:21-32 | true exactly when some registration accepts, with the value of the first one; false with no value otherwise |
| `TypeCombinations.TypeCombinationDictionary.AddFirst` | SharpFileSystem/Collections/TypeCombinationDictionary.cs:35 | the new registration is put in front of the old list, which keeps its order |
| `TypeCombinations.TypeCombinationDictionary.AddLast` | SharpFileSystem/Collections/TypeCombinationDictionary.cs:37 | the new registration is put after the old list, which keeps its order |
| `TypeCombinations.AddFirstWins` | SharpFileSystem/Collections/TypeCombinationDictionary.cs:35 | a registration added in front answers every query it accepts |
| `TypeCombinations.AddLastDefers` | SharpFileSystem/Collections/TypeCombinationDictionary.cs:37 | a registration added at the back changes only the answer to queries nothing older accepts |
| `TypeCombinations.Scenario` | SharpFileSystem/Collections/TypeCombinationDictionary.cs:35-37 | with (Base, Base) -> v1 added last and (Derived, Derived) -> v2 added first, and Derived not assignable from Base, (Derived, Derived) resolves to v2 and (Base, Base) to v1 |
| `Paths.FileSystemPath.AppendFile` | SharpFileSystem/StandardEntityMover.cs:39-40 | appending a valid name to a directory gives a valid file path whose name is that name and whose parent is the directory |
| `Paths.FileSystemPath.AppendDirectory` | SharpFileSystem/StandardEntityMover.cs:39-41 | appending a valid name to a directory gives a valid, non-root directory path whose name is that name and whose parent is the directory |
| `Paths.AppendInjective` | SharpFileSystem/StandardEntityMover.cs:39-41 | distinct children (by parent, name or kind) get distinct destination paths |
| `Paths.JoinSplit` | SharpFileSystem/FileSystems/PhysicalFileSystem.cs:73-74 | joining the pieces of a split gives back the text |
| `Paths.SplitJoin` | SharpFileSystem/FileSystems/PhysicalFileSystem.cs:73-74 | splitting joined separator-free names gives back the names |
| `Paths.ParseText` | SharpFileSystem/FileSystems/PhysicalFileSystem.cs:67-74 | parsing the text of a valid path gives the path back |
| `Paths.TextParse` | SharpFileSystem/FileSystems/PhysicalFileSystem.cs:73-74 | a text that parses is the text of the path it parses to |
| `Paths.ParsedValid` | SharpFileSystem/FileSystems/PhysicalFileSystem.cs:74 | every parsed path is valid: no name is empty or holds the separator |
| `PhysicalFileSystems.Create` | SharpFileSystem/FileSystems/PhysicalFileSystem.cs:58-65 | an empty root is rejected; otherwise the root ends with the host separator, which is appended only when missing |
| `PhysicalFileSystems.PhysicalFileSystem.GetPhysicalPath` | SharpFileSystem/FileSystems/PhysicalFileSystem.cs:67 | for a root ending with the host separator, as `Create` makes it, the host path is the root followed by the path's text less its first character, with no virtual separator left |
| `PhysicalFileSystems.PhysicalFileSystem.VirtualText` | SharpFileSystem/FileSystems/PhysicalFileSystem.cs:73 | the virtual text starts with the virtual separator and holds no host separator |
| `PhysicalFileSystems.PhysicalFileSystem.GetVirtualFilePath` | SharpFileSystem/FileSystems/PhysicalFileSystem.cs:69-75 | fails with an argument error exactly when the host path does not start with the root (case folded); a parsed result is valid and its text is the virtual text |
| `PhysicalFileSystems.PhysicalFileSystem.GetVirtualDirectoryPath` | SharpFileSystem/FileSystems/PhysicalFileSystem.cs:77-85 | the same rejection; a parsed result is a valid directory whose text is the virtual text with a trailing separator ensured |
| `PhysicalFileSystems.DirectoryText` | SharpFileSystem/FileSystems/PhysicalFileSystem.cs:82-83 | the text ends with the virtual separator |
| `PhysicalFileSystems.DirectoryTextParses` | SharpFileSystem/FileSystems/PhysicalFileSystem.cs:82-84 | a text ending with the separator parses to a directory |
| `PhysicalFileSystems.PhysicalFileSystem.CreateFile` | SharpFileSystem/FileSystems/PhysicalFileSystem.cs:23-28 | fails with an argument error exactly for a directory path, before the host path is used; otherwise acts on the path's host path |
| `PhysicalFileSystems.PhysicalFileSystem.OpenFile` | SharpFileSystem/FileSystems/PhysicalFileSystem.cs:30-35 | fails with an argument error exactly for a directory path; otherwise acts on the path's host path |
| `PhysicalFileSystems.PhysicalFileSystem.CreateDirectory` | SharpFileSystem/FileSystems/PhysicalFileSystem.cs:37-42 | fails with an argument error exactly for a file path; otherwise acts on the path's host path |
| `PhysicalFileSystems.ReplaceBack` | SharpFileSystem/FileSystems/PhysicalFileSystem.cs:67-73 | replacing the separators back undoes the replacement when the text held no host separator |
| `PhysicalFileSystems.PhysicalPathUnderRoot` | SharpFileSystem/FileSystems/PhysicalFileSystem.cs:67-71 | every host path of a virtual path passes the under-the-root check, whatever the case folding |
| `PhysicalFileSystems.VirtualTextOfPhysical` | SharpFileSystem/FileSystems/PhysicalFileSystem.cs:67-73 | the virtual text of a path's host path is the path's text, when no name holds the host separator |
| `PhysicalFileSystems.FilePathRoundTrip` | SharpFileSystem/FileSystems/PhysicalFileSystem.cs:67-75 | a valid file path mapped to the host and back through `GetVirtualFilePath` is the same path |
| `PhysicalFileSystems.DirectoryPathRoundTrip` | SharpFileSystem/FileSystems/PhysicalFileSystem.cs:67-85 | a valid directory path mapped to the host and back through `GetVirtualDirectoryPath` is the same path |
| `PhysicalFileSystems.ListedVirtualText` | SharpFileSystem/FileSystems/PhysicalFileSystem.cs:11-19 | a directory as a host listing names it, without the trailing separator, is still under the root and its virtual text is the path's text less the trailing separator |
| `PhysicalFileSystems.ListedDirectoryRoundTrip` | SharpFileSystem/FileSystems/PhysicalFileSystem.cs:11-19 | a directory named by a host listing maps back to the directory path |
| `MemoryFileSystems.MemoryFileSystem.GetEntities` | SharpFileSystem/FileSystems/PhysicalFileSystem.cs:11-19 | a file path fails with an argument error, a missing directory fails as not found; otherwise each entity directly below is listed once with its kind, the directories before the files |
| `MemoryFileSystems.ListsConcat` | SharpFileSystem/FileSystems/PhysicalFileSystem.cs:16-18 | listings of disjoint key sets concatenate to a listing of their union |
| `MemoryFileSystems.ListKeys` | SharpFileSystem/FileSystems/PhysicalFileSystem.cs:14-17 | every key of the set is listed exactly once, with the given kind |
| `MemoryFileSystems.MemoryFileSystem.OpenFile` | SharpFileSystem/FileSystems/PhysicalFileSystem.cs:30-35 | a directory path fails with an argument error and a missing file as not found, opening nothing; otherwise a fresh open stream over the file's bytes at position 0 |
| `MemoryFileSystems.MemoryFileSystem.CreateFile` | SharpFileSystem/FileSystems/PhysicalFileSystem.cs:23-28 | the file exists, empty, and a fresh open writer is returned |
| `MemoryFileSystems.MemoryFileSystem.CloseFile` | SharpFileSystem/StandardEntityMover.cs:23-29 | closing the writer stores what was written to it as the file's bytes |
| `MemoryFileSystems.MemoryFileSystem.CreateDirectory` | SharpFileSystem/FileSystems/PhysicalFileSystem.cs:37-42 | the directory exists afterwards, and nothing else changes |
| `MemoryFileSystems.MemoryFileSystem.Delete` | SharpFileSystem/FileSystems/PhysicalFileSystem.cs:44-50 | the path and everything below it are removed, and nothing else |
| `MemoryFileSystems.RemoveKeepsTree` | SharpFileSystem/FileSystems/PhysicalFileSystem.cs:44-50 | deleting a non-root subtree leaves a well-formed tree |
| `EntityMovers.CopyAll` | SharpFileSystem/StandardEntityMover.cs:25-28 | the destination receives exactly the rest of the source's bytes, in order; the source ends at its end; every write is non-empty and at most the buffer's length, and, because a modelled stream's `Read` returns every byte left up to the count, all but the last fill it |
| `EntityMovers.CopyToNewFile` | SharpFileSystem/StandardEntityMover.cs:23-29 | the destination file holds exactly the rest of the source stream once its writer is closed, and the destination has nothing open |
| `EntityMovers.CopyFile` | SharpFileSystem/StandardEntityMover.cs:21-30 | a missing source file fails as not found with the destination untouched; otherwise the destination file holds the source file's bytes, and both file systems have nothing open |
| `EntityMovers.GraftFile` | SharpFileSystem/StandardEntityMover.cs:19-33 | moving a file places exactly its bytes at the destination path |
| `EntityMovers.MoveFile` | SharpFileSystem/StandardEntityMover.cs:19-33 | a missing source fails as not found with both sides untouched; otherwise the file is copied to the destination and, after both streams are closed, deleted from the source, which stays a well-formed tree |
| `EntityMovers.PruneStep` | SharpFileSystem/StandardEntityMover.cs:37-43 | after one more child is moved, the source has lost that child's subtree as well |
| `EntityMovers.GraftUnpruned` | SharpFileSystem/StandardEntityMover.cs:37-43 | a child not yet moved is intact in the partly moved source |
| `EntityMovers.GraftStep` | SharpFileSystem/StandardEntityMover.cs:37-43 | moving one more child adds exactly its grafted subtree to the destination |
| `EntityMovers.SubtreeShrinks` | SharpFileSystem/StandardEntityMover.cs:42 | the recursive call works on a strictly smaller subtree of the source |
| `EntityMovers.MoveChild` | SharpFileSystem/StandardEntityMover.cs:37-43 | one loop turn: for a listed child not yet moved, the source loses that child's subtree and the destination gains it grafted below the destination directory, so the moved set grows by that child |
| `EntityMovers.PruneAll` | SharpFileSystem/StandardEntityMover.cs:37-46 | once every listed child is moved, only the directory itself is left of its subtree |
| `EntityMovers.GraftAll` | SharpFileSystem/StandardEntityMover.cs:36-43 | the created directory plus the grafted children is the graft of the whole subtree |
| `EntityMovers.RemovePruned` | SharpFileSystem/StandardEntityMover.cs:45-46 | deleting the emptied directory removes the whole original subtree |
| `EntityMovers.PruneRoot` | SharpFileSystem/StandardEntityMover.cs:45-46 | moving every child out of the root leaves the root directory alone |
| `EntityMovers.MoveDirectory` | SharpFileSystem/StandardEntityMover.cs:34-47 | the destination directory is created first; a missing source fails as not found with only that directory added; otherwise the destination gains the whole subtree under the destination path and the source loses it, except that an emptied root stays |
| `EntityMovers.Move` | SharpFileSystem/StandardEntityMover.cs:13-48 | kinds differ: fails with an argument error and touches nothing; a missing source: not found; otherwise the destination gains the source subtree at the destination path and the source loses it (the root stays, empty); the source stays well-formed and both sides stay closed |

## Left out

- Integer width: counts, offsets and positions are unbounded naturals. The
  32-bit `int` and 64-bit `long` wrap-around of the source and its negative
  arguments are not modelled.
- `CircularBuffer`: the `Put(T[])`, `Get(T[])` and `Get(int)` convenience
  overloads (lines 100, 145, 137-142) only call the bulk operations with
  offset 0 and the array's length. `GetBuffer` exposes the internal array, so
  callers can alias it; it is left out. `SyncRoot` (a lock object made with
  `Interlocked`), the enumerator, and the `ICollection` glue are left out too.
  The glue includes `Count`, `IsReadOnly`, `Add` (calls `Put(T)`) and `Remove`
  (calls `Get()`).
- `CircularBuffers.CircularBuffer.Contains`: compares with `==` on `T`. The
  source's separate null test and `EqualityComparer<T>.Default` agree with
  that for the modelled element types.
- `CircularBuffers.CircularBuffer.SetCapacity`: requires the head and the tail
  to fit the new capacity. The source would leave them beyond the new array.
- `CircularBuffers.CircularBuffer.Skip`: requires `0 <= head + count <= 2 *
  capacity`. A single subtraction cannot bring a larger head back into the
  array.
- `CircularBuffers.CircularBuffer.Put`: requires the source run to lie inside
  `src`. With overflow and a count above zero it also requires a capacity
  above zero, since the loop would index an empty array.
- `CircularBuffers.CircularBuffer.Get`: requires the target run to lie inside
  `dst`.
- `CircularBuffers.CircularBuffer.PutItem`: requires the tail below the
  capacity when the buffer is not full. With overflow it also requires the
  buffer not to be full. As written, the first case indexes past the array
  (see Findings). In the second, `Size++` takes the size past the capacity,
  which the class invariant `size <= capacity` rules out; the model does not
  say what an overflowing `Put(T)` on a full buffer should do.
- `CircularBuffers.CircularBuffer.GetItem`: requires the head below the
  capacity on a non-empty buffer. As written, `Get()` would read past the
  array (see Findings).
- `ConcatStreams.ConcatStream.constructor`: establishes `Valid()` only for at
  least one stream. With none, `CurrentStream` indexes an empty array. Every
  other member requires `Valid()`.
- `ConcatStreams.ConcatStream.SetPosition`: requires `value >= 0`, and no value
  at or past the length while the cursor is on the last stream. Outside those
  cases the scans leave the table; `BackwardScanUnderflows` and
  `ForwardScanOverruns` prove it.
- `ConcatStreams.ConcatStream.Seek`: requires its target to meet
  `SetPosition`'s precondition.
- `ConcatStreams.ConcatStream.Read`: requires the current stream to return data
  or to be the last one. As written, the loop never moves the cursor, so an
  exhausted stream other than the last, or a count of 0 on one, makes it spin
  forever.
- `ConcatStream.Flush` and `CanRead`/`CanSeek`/`CanWrite` are left out
  (`CanRead`/`CanSeek`/`CanWrite` are constants, written without contracts).
  So are the underlying streams' internals: a stream is fixed bytes, a
  position and a closed flag.
- `Streams.Stream.Read`: a read returns every byte left, up to `count`.
  `System.IO.Stream.Read` promises only some number from 1 to `count` before
  the end, and 0 at the end. So two clauses hold of this stream model only,
  not of arbitrary host streams: the full-chunk clause of `CopyAll` and the
  count returned by `ConcatStream.Read`. `CopyAll`'s main clause, exactly
  the remaining bytes in order, does not depend on this.
- `EntityMovers.CopyAll`: "all writes but the last fill the buffer" holds only
  for the modelled streams (see `Streams.Stream.Read`); the source's loop
  (SharpFileSystem/StandardEntityMover.cs:25-28) makes no such promise.
- `TypeCombinations.TypeCombinationDictionary.TryGetSupported`: the out value
  is `None`, not `default(T)`, when nothing matches. The lazy `IEnumerable`
  of `GetSupportedRegistrations` is evaluated right away.
- `PhysicalFileSystem`: the host calls are left out. These are
  `Directory.GetDirectories`/`GetFiles` in `GetEntities`, `File`/`Directory`
  `Exists`, `Delete`, `File.Create`, `File.Open`, `Directory.CreateDirectory`
  and `Dispose`. The guarded operations return the host path they would act on.
- `PhysicalFileSystems.PhysicalFileSystem.GetPhysicalPath`: `Path.Combine` is
  modelled as concatenation. The source's `Path.Combine` returns the relative
  part alone when that part is rooted, such as a first name starting with `\`
  or drive-qualified like `C:x`. The model does not capture that case and
  maps such a name below the root.
- `PhysicalFileSystems.Create`: `Path.IsPathRooted`/`Path.GetFullPath` are left
  out. The root is taken to be a full path already, and an empty root is
  rejected. Case-insensitive comparison is a caller-supplied `fold` function.
- `FileSystemPath.cs` is not part of this model. Paths are segment sequences
  with a directory flag. `Parse` accepts an absolute text without empty
  segments, and a trailing separator marks a directory.
- `MemoryFileSystems.MemoryFileSystem` stands in for the other `IFileSystem`
  the mover is given. Its `CreateFile`, `CreateDirectory` and `CloseFile`
  state the kind checks as preconditions; the physical versions return
  `ArgumentError` for them. Creating does not check that the parent exists,
  so the destination need not be a well-formed tree.
- `MemoryFileSystems.MemoryFileSystem.GetEntities`: the order within the
  directories, and within the files, is left unspecified, as the host's is.
  A file path fails with `ArgumentError`, where the host would raise an I/O
  error.
- `MemoryFileSystems.MemoryFileSystem.Delete`: requires a non-root path and no
  open stream. Deleting a missing entity removes nothing and does not fail.
- `MemoryFileSystems.MemoryFileSystem.CloseFile`: closing a written file is
  the moment its bytes are stored, which models the disposal at the end of the
  inner `using`.
- `EntityMovers.Move`: requires two distinct file systems, valid paths, and
  no open stream on either side. The source accepts one file system on both
  sides. Then `GetEntities` sees the entries the loop creates, and a directory
  moved into itself never terminates. So the model keeps the two file systems
  disjoint, which is what makes the listing snapshot hold. A failure from the destination midway through
  a tree cannot happen in the model, so partial moves are not modelled.
  `Move`'s recursion is split along the source's blocks into `MoveFile`,
  `CopyFile`, `CopyToNewFile`, `MoveDirectory` and `MoveChild`.

## Findings

| source | as written | input that shows it | evidently intended | confidence | as-written member | corrected member |
|---|---|---|---|---|---|---|
| SharpFileSystem/IO/CircularBuffer.cs:117-126 | `Put(T)` stores at `_tail` before testing it against the capacity. It then compares the old tail with the capacity, so the tail never wraps. | capacity 1: `Put(T)` then `Get()` leaves the buffer empty with tail 1; the next `Put(T)` stores at index 1 of a one-slot array | wrap the tail before the store, as the bulk `Put` does | not executed | `CircularBuffers.SinglePutPastArray` | `CircularBuffers.CircularBuffer.PutItemWrapping` |
| SharpFileSystem/IO/CircularBuffer.cs:163-173 | `Get()` reads at `_head` before testing it against the capacity, so a head resting at the capacity is read as an index. | capacity 1: `Put(T)`, `Get()`, then a bulk `Put` of one element leaves one element stored with head 1; `Get()` reads index 1 | wrap the head before the read, as the bulk `Get` does | not executed | `CircularBuffers.SingleGetPastArray` | `CircularBuffers.CircularBuffer.GetItemWrapping` |
| SharpFileSystem/IO/CircularBuffer.cs:39-54 | the `Capacity` setter repacks the contents into slots 0 to size-1 but keeps `_head` and `_tail` | capacity 3 holding 6, 7 with head 1, grown to 4: the array holds 6, 7 at slots 0 and 1 while the head still points at slot 1, so the first element read is 7 | reset the head to 0 and the tail to the size after the repack | not executed | `CircularBuffers.RepackKeepsStaleHead` | `CircularBuffers.CircularBuffer.SetCapacityRepacking` |
