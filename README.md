# ex17 record store and columnar transposition, in Dafny

This project models two small programs and proves properties of the models.

**The ex17 record store** (`c/hard_way/ex_17_database/ex17.c`). A database
image holds the two capacities `max_data` and `max_rows` and an arena of
`max_rows` address slots. Each slot has an `id`, a `set` flag, and two text
buffers of `max_data` bytes, `name` and `email`. The store has five
operations. Create clears every slot. Set fills an empty slot with truncated
copies of its texts. Get reads an occupied slot. Delete resets a slot. List
enumerates the slots in index order. A database is loaded from a file that
holds a whole image and is written back as one block.

- `records.dfy` (module `Records`) holds `struct Address` and the C-string
  handling of Database_set: `strncpy` into the buffer, then a terminator in
  its last byte.
- `store.dfy` (module `Store`) holds the image as a value. It gives each
  operation's effect on the image as a function and proves the laws that
  relate the operations. The source's fatal `die` becomes an `Err` result
  that names the diagnostic.
- `codec.dfy` (module `Codec`) holds the file image. Every `int` is written
  as four little-endian two's-complement bytes, and each buffer as its
  `max_data` bytes. Load refuses a file that does not hold a whole image.
- `database.dfy` (module `Ex17`) holds `struct Database` as a class. Its
  `rows` is an `array<Address>`. Create, Set and Delete overwrite slots in
  place, and Create and List are loops over the slots. Each method is proved
  against the function of module `Store` that it performs.

**The columnar transposition cipher**
(`cracking_codes_with_python/transposition/transposition.py`). The message
is written row by row into a grid `key` characters wide. The ciphertext reads
the grid off column by column. `transposition.dfy` (module `Transposition`)
keeps the source's nested loops as methods. It proves those methods against
the column-concatenation function `Transposed`. The lemmas state what
`Transposed` does to a message: it is a permutation, it keeps the length, it
is the identity for wide or one-column grids, and it is empty exactly for
key 0 or an empty message.

Two places where the model follows what the C code does rather than what a
whole-image store would be expected to do:

- Database_load `fread`s one item and succeeds whenever a whole image is
  there. Bytes after the image are not read, so `Codec.Load` accepts a
  longer file. It does not demand the exact size.
- The C source writes `sizeof(struct Database)`, which holds the header and a
  pointer rather than the records. The explicit byte encoding here is a
  modelling choice: it is what a whole-image write must produce.

## Model

| member | source | states |
|---|---|---|
| Records.EmptyAddress | c/hard_way/ex_17_database/ex17.c:120 | the `{ .id = i, .set = 0 }` prototype: the given id, unoccupied, with two buffers of `max_data` bytes |
| Records.CString | c/hard_way/ex_17_database/ex17.c:46 | the text a buffer shows through `%s` is a prefix of the buffer, holds no NUL, and is followed by a NUL unless it fills the buffer |
| Records.StrNCpy | c/hard_way/ex_17_database/ex17.c:140 | `strncpy` fills exactly `n` bytes: byte `k` is the source's byte `k` while that lies inside its C string, and NUL after it |
| Records.CopyText | c/hard_way/ex_17_database/ex17.c:140-149 | the buffer Database_set stores is `max_data` bytes, ends in NUL, and its C string is the input's C string cut to at most `max_data - 1` bytes |
| Store.CheckIdAsWritten | c/hard_way/ex_17_database/ex17.c:206-207 | main's check as written: an id is accepted exactly when it is below `max_rows`, and is otherwise refused with "There's not that many records." (`Store.Message` of `TooManyRecords`) |
| Store.NegativeIdPassesCheck | c/hard_way/ex_17_database/ex17.c:206-207 | the id -1 passes main's check as written, although it addresses no slot |
| Store.CheckId | c/hard_way/ex_17_database/ex17.c:207 | the intended check: an id is accepted exactly when `0 <= id < max_rows`, and is then the slot index |
| Store.Cleared | c/hard_way/ex_17_database/ex17.c:115-124 | after create, every slot `i` is unoccupied with `id == i`; the capacities and the row count are kept |
| Store.Stored | c/hard_way/ex_17_database/ex17.c:130-153 | set fails with "Already set, delete it first" exactly when the slot is occupied (the text is `Store.Message` of `AlreadySet`); otherwise only that slot changes, it keeps its id, becomes occupied, and holds the truncated texts |
| Store.Fetched | c/hard_way/ex_17_database/ex17.c:158-166 | get yields the slot's record exactly when the slot is occupied, and otherwise fails with "ID is not set" (`Store.Message` of `NotSet`) |
| Store.Vacated | c/hard_way/ex_17_database/ex17.c:169-174 | delete makes slot `id` the empty record stamped `id`, whatever it held, and changes no other slot |
| Store.VerboseListing | c/hard_way/ex_17_database/ex17.c:180-193 | the verbose listing has one line per slot, in slot order: the record of an occupied slot, or "No record at i" for an empty one |
| Store.QuietListing | c/hard_way/ex_17_database/ex17.c:184-192 | the default listing is the verbose one without its notices, so it holds exactly the occupied slots in increasing index order |
| Store.ListingShowsOccupiedSlots | c/hard_way/ex_17_database/ex17.c:184-192 | every record line of a listing is an occupied slot of the image, and every notice names an empty slot and appears only in verbose mode |
| Store.CreateIdempotent | c/hard_way/ex_17_database/ex17.c:115-124 | create twice gives the image of create once |
| Store.DeleteIdempotent | c/hard_way/ex_17_database/ex17.c:169-174 | delete twice gives the image of delete once |
| Store.SlotIdsKept | c/hard_way/ex_17_database/ex17.c:115-174 | create stamps every slot with its index, and set and delete keep that stamping |
| Store.GetAfterSet | c/hard_way/ex_17_database/ex17.c:130-166 | after a set on an empty slot, get yields the old id and the truncated, terminated texts |
| Store.AfterDelete | c/hard_way/ex_17_database/ex17.c:130-174 | after delete, get on the slot fails and set on it succeeds |
| Store.DeleteUndoesSet | c/hard_way/ex_17_database/ex17.c:130-174 | set followed by delete gives the image that delete alone gives |
| Codec.Int32RoundTrip | c/hard_way/ex_17_database/ex17.c:10-18 | every C `int` decodes back from its four-byte encoding |
| Codec.RecordRoundTrip | c/hard_way/ex_17_database/ex17.c:9-14 | a well-formed record decodes back from its encoding |
| Codec.RowsRoundTrip | c/hard_way/ex_17_database/ex17.c:16-20 | the encoded slots, with any bytes after them, decode back to the same slots |
| Codec.Encode | c/hard_way/ex_17_database/ex17.c:97-109 | the written image is exactly header size plus `max_rows` record sizes long |
| Codec.Load | c/hard_way/ex_17_database/ex17.c:49-54 | a load succeeds exactly when the file holds a sane header and at least the whole image that header describes; it then yields a valid image, and otherwise fails with "Failed to load database." (`Store.Message` of `LoadFailed`) |
| Codec.RoundTrip | c/hard_way/ex_17_database/ex17.c:49-109 | a written image, with any bytes after it, loads back unchanged |
| Codec.ShortImageFails | c/hard_way/ex_17_database/ex17.c:50-53 | a file cut short anywhere inside an image fails to load |
| Ex17.Database.constructor | c/hard_way/ex_17_database/ex17.c:56-82 | a fresh slot array holding exactly the given valid image |
| Ex17.OpenExisting | c/hard_way/ex_17_database/ex17.c:67-79 | opening an existing file fails exactly as its load fails; otherwise the database holds the loaded image in a fresh array |
| Ex17.Database.Create | c/hard_way/ex_17_database/ex17.c:115-124 | the loop leaves the image `Store.Cleared` of the old one |
| Ex17.Database.Set | c/hard_way/ex_17_database/ex17.c:130-153 | on an occupied slot it returns the error and leaves the image unchanged; otherwise the new image is `Store.Stored` of the old one |
| Ex17.Database.Get | c/hard_way/ex_17_database/ex17.c:158-166 | returns `Store.Fetched` of the image: the occupied slot's record or the "ID is not set" error; it modifies nothing |
| Ex17.Database.Delete | c/hard_way/ex_17_database/ex17.c:169-174 | the new image is `Store.Vacated` of the old one |
| Ex17.Database.List | c/hard_way/ex_17_database/ex17.c:180-193 | the loop's lines are `Store.Listing` of the image, and it modifies nothing |
| Ex17.Database.Write | c/hard_way/ex_17_database/ex17.c:97-109 | the block written is one whole image, and it loads back as the database's image |
| Transposition.ColumnarTransposition | cracking_codes_with_python/transposition/transposition.py:1-9 | the nested loops build `Transposed(message, key)`: columns `0 .. min(key, len) - 1`, each read with stride `key` |
| Transposition.CrackColumnarTransposition | cracking_codes_with_python/transposition/transposition.py:11-19 | crack with `key` builds `Transposed(ciphertext, key + 1)`, the transposition with key `key + 1` |
| Transposition.BruteForce | cracking_codes_with_python/transposition/transposition.py:21-29 | one candidate per `n` in `0 .. len - 1`, candidate `n` being the crack with key `n` |
| Transposition.ColumnAt | cracking_codes_with_python/transposition/transposition.py:6-8 | element `j` of the column that starts at `i` is `message[i + j*key]`, and the column ends at the first such index past the message |
| Transposition.TransposedPermutation | cracking_codes_with_python/transposition/transposition.py:1-9 | for `key >= 1` the ciphertext holds every character of the message exactly as often as the message does |
| Transposition.TransposedLength | cracking_codes_with_python/transposition/transposition.py:1-9 | the ciphertext is as long as the message for `key >= 1`, and it is `''` exactly when `key` is 0 or the message is empty |
| Transposition.TransposedIdentity | cracking_codes_with_python/transposition/transposition.py:3-9 | for `key == 1` or `key >= len(message)` the ciphertext is the message |

## Left out

- File handling (`fopen`, `fread`, `fwrite`, `fflush`, `rewind`, `fclose`), `malloc`/`free` and Database_close are not modelled. Files are byte sequences passed in and returned. The write and flush failures are not modelled.
- The printing, `perror` and `exit(1)` of `die` are not modelled. Each fatal condition that concerns the image is an `Err` result instead. The memory, file-open, usage and verb errors of `main` and Database_open are not modelled.
- The text format of `Address_print` and the "No record at i" notice is not modelled. A listing is a sequence of `Line` values.
- The argument parsing, `atoi` and verb switch of `main` are not modelled. The methods require `0 <= id < max_rows`, the condition `Store.CheckId` accepts.
- In create mode Database_open leaves `max_data`, `max_rows` and `rows` uninitialised before Database_create runs. The model instead takes the capacities as given: the constructor receives a valid image, which Create then clears.
- The pointer layout of `struct Address` and `struct Database` is modelled as fixed-size buffers and a sized array. `set` is a `bool`. A stored non-zero flag loads back as set.
- The "Name copy failed" and "Email copy failed" branches are not modelled. They cannot be reached: Database_set writes `res[max_data - 1]` (ex17.c:142 and 149) before it tests `res` for null (ex17.c:143 and 150), so a null `res` would fault before the test. The model's `CopyText` always yields a buffer.
- The load header check is stricter than the C code: `Codec.Load` also refuses `max_data < 1` and `max_rows < 0`, which the C code never checks. An image with `max_data == 0` has a proper shape, and the C code can load it and run create and delete on it. Database_set would then write `res[-1]` (ex17.c:142 and 149), and Address_print's `%s` would read a buffer with no terminator, so the model refuses that header instead. With `max_rows < 0` no image of that shape can exist.
- `filter_english` is not modelled: it is an unfinished stub that always returns an empty list. The `__main__` block and `reader.get_words` are not modelled either, because they are console I/O and an external module.
- Transposition.ColumnarTransposition: requires `key >= 0`. With a negative key the source steps backwards through Python's negative indices and raises `IndexError`, unless the message is empty.
- Transposition.CrackColumnarTransposition: requires `key >= -1` for the same reason. Its stride is `key + 1`.

## Findings

| source | as written | input that shows it | evidently intended | confidence | as-written member | corrected member |
|---|---|---|---|---|---|---|
| c/hard_way/ex_17_database/ex17.c:207 | only an id at or above `max_rows` is refused | `ex17 db.dat g -1`: `atoi` gives -1, which passes the check, and Database_get then reads `rows[-1]` outside the slot array | refuse every id outside `0 .. max_rows - 1` | not executed | Store.CheckIdAsWritten (exhibited by Store.NegativeIdPassesCheck) | Store.CheckId |
