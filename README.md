# FileDriver image decoder, modelled in Dafny

FileDriver (`main.py`) reads a small FAT-style disk image. The image starts with a
12-byte superblock holding the block size, the FAT byte length and the root
capacity. Next comes the FAT, a table of 8-byte rows `(tag, next)` indexed by
block number. Then comes the root directory, made of 20-byte records: a
12-byte NUL-padded name, a first block and an attribute. The data blocks follow.

The program decodes the three structures and expands each directory entry
(attribute 1) into the records stored in its first block. It flattens the
resulting tree into parallel lists of names, paths, first blocks and
attributes. On those lists it answers substring searches and "save this file"
requests; a save follows the FAT chain of the file's first block.

This project models that read-only core. The image is an immutable byte
sequence (`Image.Byte` values), read the way Python's `f.read(n)` reads:

- a count of -1 reads to the end of the file;
- any other negative count raises `ValueError` (`Image.ReadCount`, `Image.ReadsAccepted`);
- a count past the end stops at the end without failing;
- the cursor advances by the bytes actually read (`Image.Stop`, `Image.Take`, `Image.ReadAt`).

Integers are 4-byte little-endian two's complement, the width the layout
implies (8-byte FAT rows, 20-byte records, a 12-byte superblock). Every
`struct.unpack` whose buffer has the wrong length fails with `UnpackError`.
Python's other failures are also explicit outcomes (`Outcomes.Error`):

- `ValueError`: a read count below -1;
- `IndexError`: a block number outside the table;
- `AttributeError`: `.append` on a dict;
- `Hangs`: a `while True` that can never exit;
- `RecursionLimit`: a recursion depth budget.

Modules, in program order:

- `Image`: reads, clipped slices, 32-bit integers and their encoding.
- `Outcomes`: the error kinds, `Result` and `Option`.
- `Header`: `Superblock.read_inf` and the constructor's field assignment.
- `Fat`: `FatBlock.read_inf`.
- `Root`: `RootBlock.read_inf`, NUL stripping and 20-byte record decoding.
- `Chain`: `read_file`, the chain walk and its termination.
- `Tree`: `find_inner_file`, including the state it shares across a batch.
- `Paths`: `make_paths`.
- `Query`: `search` without printing, and the lookup-and-decide part of `save_file_content`.

Two behaviours of the code are easy to misread; the model follows the code:

- **FAT size not a multiple of 8.** `range(0, size, 8)` takes `ceil(size / 8)`
  steps, and every step reads a full 8 bytes. So a FAT byte length that is not
  a multiple of 8 does not fail: the last row comes from the bytes after the
  table. Only a read cut short by the end of the image fails (`Fat.ReadInf`).
- **NUL stripping.** Names have NULs stripped from both ends (`strip`), not
  only trailing padding (`Root.StripNul`).

Inside `find_inner_file`, `inner_content_binary` and `inner_content` are
shared by the whole batch, and `inner_content` is rebound to the returned
dict. The model keeps both pieces of state. A second directory in a batch
therefore raises `AttributeError`, but only after its reads are accepted, its
block is in the table and its chain stops there; otherwise the earlier error
(`ValueError`, `IndexError`, or the endless `while True`) comes first
(`Tree.LocalError`, `Tree.SecondDirectoryReports`). Each directory reads at most
`file_length` (20) bytes (fewer at the end of the image, which is the
UnpackError case), so it holds exactly one child record
(`Tree.FolderHasOneChild`).

## Model

| member | source | states |
|---|---|---|
| Image.Stop | main.py:58 | the cursor after an accepted `f.read(n)`: the end of the image for -1, otherwise `min(pos + n, end)`, never before `pos` |
| Image.Take | main.py:58 | an accepted read returns exactly the bytes between `pos` and the new cursor |
| Image.Slice | main.py:200-203 | the clipped slice has the requested length exactly when it lies inside the image (or is empty), never more |
| Image.ReadChunks | main.py:104-107 | `count` sequential `width`-byte reads from `origin` give, for each `j`, the clipped slice at `origin + width * j` |
| Image.ReadAtIsSlice | main.py:200-203 | two non-negative skips and a read are the clipped slice at the sum of the skips |
| Image.ChunkInt32 | main.py:109 | the integer at an offset inside a full chunk is the integer at the matching image offset |
| Image.Int32At | main.py:59 | a decoded `'l'` field is a 32-bit signed value, negative exactly when the top byte's high bit is set |
| Image.DecodeEncodeInt32 | main.py:59 | decoding the 4-byte encoding of any 32-bit integer gives it back |
| Image.EncodeDecodeInt32 | main.py:59 | encoding a decoded integer gives back the 4 bytes it came from |
| Header.ReadInf | main.py:57-63 | succeeds exactly when the first `size` bytes are 12 bytes long (for `size` 12: the image has at least 12 bytes); the result is the three integers at offsets 0, 4 and 8, in order; a count below -1 gives ValueError, any other failure UnpackError |
| Header.Init | main.py:22-32 | the superblock's block size, FAT size and root capacity are the integers at offsets 0, 4 and 8, with the same failure conditions and errors |
| Header.HeaderRoundTrip | main.py:57-63 | an image starting with three encoded integers decodes to those integers |
| Fat.RowCount | main.py:106 | `range(0, size, 8)` has the least number of steps covering `size` bytes (none for a non-positive size) |
| Fat.ReadInf | main.py:102-112 | succeeds exactly when all `ceil(size/8)` rows after `previous` bytes fit in the image; row `i` is the pair of integers at `origin + 8i` and `origin + 8i + 4`; a `previous` below -1 gives ValueError, a short row UnpackError |
| Root.StripNul | main.py:167 | the stripped name has no NUL at either end, is no longer than the field, and is empty exactly when the field is all NULs |
| Root.StripNulShape | main.py:167 | the field is some NULs, then the stripped name, then some NULs |
| Root.StripNulOfPadded | main.py:167 | stripping a name padded with NULs on either side gives the name back |
| Root.ReportTxtName | main.py:167 | the field `report.txt` followed by two NULs decodes to `report.txt` |
| Root.DecodeRecord | main.py:167-169 | a record decodes exactly when it is 20 bytes long, to a name without edge NULs and two 32-bit integers; otherwise UnpackError |
| Root.RecordRoundTrip | main.py:167-169 | decoding an encoded record with a valid name gives that record back |
| Root.ReadInf | main.py:159-175 | a `previous` below -1 gives ValueError; otherwise the result is the longest prefix of the `num_of_files` records with non-empty names, and when it stops early the next record decoded with an empty name; an UnpackError means some record fails to decode while every record before it decodes with a non-empty name |
| Chain.Walk | main.py:204-205 | a walk that ends starts at `place`, stays inside the table and has at most `fuel + 1` blocks |
| Chain.WalkStep | main.py:204-205 | a chain that ends and does not stop at `place` continues with the chain from its successor |
| Chain.ReadFile | main.py:199-206 | succeeds exactly when the three reads of every visited block are accepted, and then the content is the payloads of the visited blocks concatenated in chain order; otherwise ValueError; a block whose successor is a terminator gives exactly its own payload, or ValueError |
| Chain.AllReadableCons | main.py:201-205 | a chain's reads are all accepted exactly when its first block's are and the rest of the chain's are |
| Chain.ReadFileIsSlices | main.py:199-206 | with a non-negative layout reading never fails, and the content is the concatenation of the clipped slices at `system_size + block_size * b` for each visited block `b` |
| Chain.NegativeBlockSizeFails | main.py:201-203 | a block size below -1 makes every file read fail with ValueError |
| Chain.TwoBlockFile | main.py:199-206 | from the table `[(_, 1), (_, 255)]`, reading block 0 gives block 0's payload and then block 1's, or ValueError when one of their reads is refused |
| Chain.CycleNeverEnds | main.py:204-205 | a chain through two blocks that point at each other never ends, with any fuel |
| Chain.WalkDistinct | main.py:204-205 | a chain that ends never visits a block twice |
| Chain.EndsWithinTable | main.py:204-205 | every chain that ends does so within as many links as the table has rows, so the precondition of `ReadFile` is exactly termination |
| Chain.WalkStable | main.py:204-205 | more fuel does not change a walk that already ends |
| Chain.WalkSuffix | main.py:204-205 | the walk from the `i`-th visited block is the rest of the walk |
| Chain.WalkFuel | main.py:204-205 | a walk over `m` blocks needs only `m - 1` links of fuel |
| Tree.Dedup | main.py:342-344 | the key order of a dict filled from `s`: distinct, with exactly the members of `s` |
| Tree.KeyIndex | main.py:342 | the position of an existing key is the first pair holding it |
| Tree.Assign | main.py:342-344 | `file_map[key] = value` keeps an existing key in place with the new value and appends a new key; no other pair changes |
| Tree.PyIndex | main.py:333 | Python list indexing: defined exactly for `-n <= i < n`, with negative indices counted from the end |
| Tree.CountDirsPrefix | main.py:326-327 | a prefix of a batch holds no more directories than the batch |
| Tree.AssignExpanded | main.py:342-344 | assigning an expanded value keeps every pair of the map expanded |
| Tree.ExpandsOkStep | main.py:326-344 | a file, or a first directory that expands, keeps a batch expandable |
| Tree.ExpandsOkPrefix | main.py:326-344 | every prefix of an expandable batch is expandable |
| Tree.FailsAtUnique | main.py:326-344 | a batch fails at one entry at most, and failing there fails the batch |
| Tree.DirStepFails | main.py:326-341 | a directory after an earlier directory, or one that cannot expand, is where its batch fails |
| Tree.LocalErrorFails | main.py:327-340 | a directory that raises an error of its own is where its batch fails |
| Tree.ReportAt | main.py:326-345 | failing at an entry with its own error, or, when it has none, with the error its child's expansion reports, is the report of the batch |
| Tree.ReportedUnique | main.py:326-345 | a batch reports one error at most, down through its nested expansions |
| Tree.NestedFailure | main.py:340-342 | a directory that reached the recursive call and whose child's expansion reports an error fails its batch, which reports that same error |
| Tree.NestedReports | main.py:340-342 | where the batch first fails at an entry that reached the recursive call, it reports exactly what that entry's child expansion reports |
| Tree.ReportedIsLocal | main.py:326-345 | where the batch first fails at an entry with its own error, that error and no other is reported |
| Tree.LocalReport | main.py:327-340 | an entry's own error fails the batch and is the error reported |
| Tree.SecondDirectoryReports | main.py:328-339 | a second directory whose reads are accepted, whose block is in the table and whose chain stops there makes the batch report AttributeError and nothing else |
| Tree.NonTerminatorReports | main.py:328-334 | a directory whose block is in the table but whose successor is not a terminator makes the batch report Hangs and nothing else |
| Tree.AppendDecoded | main.py:335-339 | unpacking and appending every chunk: onto the list, succeeds exactly when every chunk is 20 bytes and appends their records in order, else UnpackError; onto the dict, AttributeError once the first chunk unpacks, UnpackError if it does not |
| Tree.TwoDirsFail | main.py:335-340 | a batch with two directories fails (the second `.append` hits a dict) |
| Tree.FolderHasOneChild | main.py:329-340 | an expanded directory maps to a map with one key, the record read from its first block |
| Tree.DirChunkIsSlice | main.py:329-332 | with a non-negative layout a directory's chunk is the clipped slice at `system_size + block_size * first_block` |
| Tree.ItemExpandedUnique | main.py:326-344 | an entry has only one expansion |
| Tree.ExpandedUnique | main.py:322-345 | a batch has only one expansion |
| Tree.ExpandDir | main.py:327-342 | one directory of a batch: on success it was the batch's first directory, it expands, and the shared state holds its one 20-byte chunk and the returned map; on failure the batch is not expandable and reports the error returned, AttributeError only when the batch holds two directories |
| Tree.FindInnerFile | main.py:322-345 | succeeds exactly when the batch is expandable, and then returns its expansion: every entry of the batch is a key and nothing else is; files map to 'Not Folder'; directories map to the expansion of their one record; an error is the one raised at the entry where the batch first fails (a refused read, a block outside the table, a non-terminating loop, the dict `.append`, a short record, the spent depth) or, when that entry reached the recursive call, the error its child's expansion reports; AttributeError only for a batch with two directories |
| Paths.ExpandedShaped | main.py:302-303 | every directory in a map built by `find_inner_file` maps to a nested map, which `make_paths` needs |
| Paths.MakePaths | main.py:287-307 | the four lists have equal length and are, index by index, the pre-order records of the map |
| Paths.FlattenUnder | main.py:298-303 | every listed path starts with the prefix and ends with the listed name |
| Paths.FlattenUpToPrefix | main.py:296-307 | the records of earlier pairs come first, unchanged, as later pairs are listed |
| Paths.PreOrder | main.py:296-307 | each pair's record follows the records of earlier pairs; a directory is followed by exactly its children's records under `prefix + name + '/'`; anything else is followed directly by the next pair |
| Paths.DocsExample | main.py:287-307 | a folder `docs` holding `a.txt` lists `/docs` and then `/docs/a.txt` |
| Query.Matches | main.py:259-261 | the indices below `n` whose name contains the query: increasing, each one matching, and none missing |
| Query.Search | main.py:258-268 | returns, in order, the paths of exactly the zipped pairs whose name contains the query; never longer than the shorter list |
| Query.EmptyQueryMatchesAll | main.py:260 | the empty query matches every index |
| Query.NoMatch | main.py:259-261 | a query contained in no name matches nothing |
| Query.FirstIndex | main.py:237 | `index` returns the first position holding the query |
| Query.SaveFileContent | main.py:236-244 | 'Wrong path' exactly when the query is not a name; "It's a folder" exactly when the first entry with that name has attribute 1; ValueError exactly when it is a file and one of its chain's reads is refused; otherwise the file is saved under the query with the payloads of its chain's blocks |
| Query.SaveAtFirstMatch | main.py:236-244 | when `j` is the first index holding the query, entry `j` alone decides the outcome, and a file's outcome is what `read_file` returns from its first block |
| Query.SaveSingleBlock | main.py:236-244 | a file whose first block ends its chain is saved with exactly that block's payload, or fails with ValueError when that block's read is refused |

## Left out

- The `main()` menu loop, the wiring of the three blocks in `main`, and the argument misordering in its `save_file_content` call: these form the command-line layer.
- All `__str__`/`__repr__`, every `save_inf`, `built_tree`, `show_text_files`, `search` with `print_info=True`, and every `print`: these are report and I/O wrappers.
- The file written by `save_file_content` (the `open(...)` and `print(result, file=f)`): `Query.SaveOutcome.Saved` carries the file name and the content instead.
- The `input()` prompts of `search` and `save_file_content`: the query is a parameter. One consequence is not modelled: an empty query is falsy in Python and makes the program prompt again.
- `save_file_content` looks the query up in `files_names`, although its prompt asks for a full path. The model follows the code.
- UTF-8 decoding of names: names are raw bytes. UTF-8 encodes NUL only as byte 0, so stripping NUL bytes equals stripping NUL characters. Decode errors on malformed names are not modelled.
- Tree.FindInnerFile: CPython's recursion limit is not a fixed number here. It becomes the `depth` budget, and running out of it gives `RecursionLimit`.
- Root.ReadInf: the three field widths are `nat`, as the 12, 4 and 4 that `main` passes are; a negative width sum (a read to the end for -1, ValueError below that) is not modelled.
- Python's platform-width `l` format: integers are fixed at 4 bytes.
- Chain.ReadFile: it requires a chain that ends within the table, as `Chain.EndsWithinTable` justifies. A chain that leaves the table is excluded by this precondition, not modelled as an outcome. In the source such a successor gives ValueError from `f.read(block_size * place)` when the product is below -1 (any successor below -1 with a positive block size), IndexError from `fat_table[place]` when it is past the table's end, and, for a block size of 0 or -1, Python's wrap-around of a negative index into the table (IndexError below minus its length).
- Chain.ReadFile: CPython's recursion limit is not modelled. `read_file` recurses once per block, so a chain longer than the interpreter's limit (1000 frames by default) raises RecursionError, and so does a cyclic chain, which the source does not detect (`Chain.CycleNeverEnds`). The model admits every chain that ends within the table and returns its content.
- Paths.MakePaths: it requires every directory to map to a nested map (`Paths.Shaped`), which `Paths.ExpandedShaped` proves for every map `find_inner_file` builds. The failure from iterating a string value is not modelled.
- The `Block` abstract base class: it has no behaviour.
