/** The database image of ex17.c (`struct Database`) as a value, and the
    effect of each store operation on it: Database_create, Database_set,
    Database_get, Database_delete and Database_list. The class in module Ex17
    performs these operations in place and is proved against the functions
    here; the lemmas at the end relate the operations to each other. */
module Store {
  import opened Records

  const INT32_MIN: int := -0x8000_0000
  const INT32_MAX: int := 0x7fff_ffff

  /** The range of a C `int`. */
  predicate IsInt32(x: int) {
    INT32_MIN <= x <= INT32_MAX
  }

  /** The fatal conditions of ex17.c that concern the image; the source
      passes each message to `die`, which the model replaces by an error
      result. */
  datatype Error =
    | AlreadySet
    | NotSet
    | TooManyRecords
    | LoadFailed

  /** The diagnostic `die` reports for each error. */
  function Message(e: Error): string {
    match e
    case AlreadySet => "Already set, delete it first"
    case NotSet => "ID is not set"
    case TooManyRecords => "There's not that many records."
    case LoadFailed => "Failed to load database."
  }

  datatype Result<T> = Ok(value: T) | Err(error: Error)

  /** `struct Database`: the two capacities and the `max_rows` slots. */
  datatype DbImage = DbImage(maxData: int, maxRows: int, rows: seq<Address>)

  /** A slot as the fixed-size layout holds it: a C `int` id and two buffers
      of exactly `max_data` bytes. */
  predicate WellFormed(a: Address, maxData: int) {
    IsInt32(a.id) && |a.name| == maxData && |a.email| == maxData
  }

  /** The image invariant: exactly `max_rows` well-formed slots, and
      capacities that fit a C `int` with room for at least the terminator. */
  predicate Valid(db: DbImage) {
    1 <= db.maxData <= INT32_MAX && 0 <= db.maxRows <= INT32_MAX &&
    |db.rows| == db.maxRows &&
    forall i :: 0 <= i < |db.rows| ==> WellFormed(db.rows[i], db.maxData)
  }

  /** The slot index is the only key: `id` addresses slot `rows[id]`. */
  predicate IsSlot(db: DbImage, id: int) {
    0 <= id < db.maxRows
  }

  /** Every slot's stored id equals its index. */
  predicate SlotIdsMatch(db: DbImage) {
    forall i :: 0 <= i < |db.rows| ==> db.rows[i].id == i
  }

  /** `after` has the capacities and slot count of `before` and differs from
      it at most in slot `id`. */
  predicate OnlySlotChanged(before: DbImage, after: DbImage, id: int) {
    after.maxData == before.maxData && after.maxRows == before.maxRows &&
    |after.rows| == |before.rows| &&
    forall j :: 0 <= j < |before.rows| && j != id ==> after.rows[j] == before.rows[j]
  }

  /** The bound check of `main` as written: only an id at or above
      `max_rows` is refused, so a negative id (`atoi("-1")`) gets through. */
  function CheckIdAsWritten(maxRows: int, id: int): (r: Result<int>)
    ensures r.Ok? <==> id < maxRows
    ensures r.Err? ==> r.error == TooManyRecords
  {
    if id >= maxRows then Err(TooManyRecords) else Ok(id)
  }

  /** The check as written admits an id that addresses no slot. */
  lemma NegativeIdPassesCheck(db: DbImage)
    requires Valid(db)
    ensures CheckIdAsWritten(db.maxRows, -1).Ok? && !IsSlot(db, -1)
  {
  }

  /** The bound check as intended: an id is accepted exactly when it
      addresses a slot, and the operations below require exactly that. */
  function CheckId(maxRows: int, id: int): (r: Result<nat>)
    ensures r.Ok? <==> 0 <= id < maxRows
    ensures r.Ok? ==> r.value == id
    ensures r.Err? ==> r.error == TooManyRecords
  {
    if id < 0 || id >= maxRows then Err(TooManyRecords) else Ok(id)
  }

  /** Database_create: every slot `i` becomes `{ .id = i, .set = 0 }`. */
  function Cleared(db: DbImage): (r: DbImage)
    requires Valid(db)
    ensures Valid(r) && r.maxData == db.maxData && r.maxRows == db.maxRows
    ensures forall i :: 0 <= i < r.maxRows ==> r.rows[i] == EmptyAddress(i, db.maxData)
  {
    db.(rows := seq(db.maxRows, i => EmptyAddress(i, db.maxData)))
  }

  /** Database_set: refused when the slot is occupied; otherwise the slot
      becomes occupied and holds the truncated copies of `name` and `email`,
      keeping its stored id. */
  function Stored(db: DbImage, id: int, name: seq<byte>, email: seq<byte>): (r: Result<DbImage>)
    requires Valid(db) && IsSlot(db, id)
    ensures r.Err? <==> db.rows[id].isSet
    ensures r.Err? ==> r.error == AlreadySet
    ensures r.Ok? ==> Valid(r.value) && OnlySlotChanged(db, r.value, id)
    ensures r.Ok? ==> r.value.rows[id].id == db.rows[id].id && r.value.rows[id].isSet
    ensures r.Ok? ==> CString(r.value.rows[id].name) == Truncate(CString(name), db.maxData - 1)
    ensures r.Ok? ==> CString(r.value.rows[id].email) == Truncate(CString(email), db.maxData - 1)
  {
    var a := db.rows[id];
    if a.isSet then Err(AlreadySet)
    else Ok(db.(rows := db.rows[id := Address(a.id, true, CopyText(name, db.maxData), CopyText(email, db.maxData))]))
  }

  /** Database_get: the record of an occupied slot; an empty slot is an
      error. */
  function Fetched(db: DbImage, id: int): (r: Result<Address>)
    requires Valid(db) && IsSlot(db, id)
    ensures r.Ok? <==> db.rows[id].isSet
    ensures r.Ok? ==> r.value == db.rows[id]
    ensures r.Err? ==> r.error == NotSet
  {
    var a := db.rows[id];
    if a.isSet then Ok(a) else Err(NotSet)
  }

  /** Database_delete: slot `id` becomes `{ .id = id, .set = 0 }` whatever
      it held. */
  function Vacated(db: DbImage, id: int): (r: DbImage)
    requires Valid(db) && IsSlot(db, id)
    ensures Valid(r) && OnlySlotChanged(db, r, id)
    ensures r.rows[id] == EmptyAddress(id, db.maxData)
  {
    db.(rows := db.rows[id := EmptyAddress(id, db.maxData)])
  }

  /** One line of Database_list's output: an occupied slot printed as by
      `Address_print`, or the verbose "No record at i" notice. */
  datatype Line = Record(address: Address) | NoRecord(slot: int)

  /** What Database_list prints for slot `i`. */
  function SlotLines(a: Address, i: int, verbose: bool): seq<Line> {
    if a.isSet then [Record(a)] else if verbose then [NoRecord(i)] else []
  }

  /** The output of Database_list's loop after its first `n` iterations. */
  function ListingUpTo(rows: seq<Address>, n: nat, verbose: bool): seq<Line>
    requires n <= |rows|
  {
    if n == 0 then [] else ListingUpTo(rows, n - 1, verbose) + SlotLines(rows[n - 1], n - 1, verbose)
  }

  /** The whole output of Database_list. */
  function Listing(db: DbImage, verbose: bool): seq<Line>
    requires Valid(db)
  {
    ListingUpTo(db.rows, |db.rows|, verbose)
  }

  /** The `Record` lines of `lines`, in order. */
  function RecordsOnly(lines: seq<Line>): (r: seq<Line>)
    ensures forall k :: 0 <= k < |r| ==> r[k].Record?
  {
    if lines == [] then []
    else RecordsOnly(lines[..|lines| - 1]) + (if lines[|lines| - 1].Record? then [lines[|lines| - 1]] else [])
  }

  /** The verbose listing has one line per slot, in slot order: the record
      of an occupied slot, the notice for an empty one. */
  lemma {:induction false} VerboseListing(rows: seq<Address>, n: nat)
    requires n <= |rows|
    ensures |ListingUpTo(rows, n, true)| == n
    ensures forall i :: 0 <= i < n ==>
      ListingUpTo(rows, n, true)[i] == if rows[i].isSet then Record(rows[i]) else NoRecord(i)
  {
    if n > 0 {
      VerboseListing(rows, n - 1);
    }
  }

  /** The default listing is the verbose one without its notices: exactly
      the occupied slots, in increasing slot order. */
  lemma {:induction false} QuietListing(rows: seq<Address>, n: nat)
    requires n <= |rows|
    ensures ListingUpTo(rows, n, false) == RecordsOnly(ListingUpTo(rows, n, true))
  {
    if n > 0 {
      QuietListing(rows, n - 1);
      var all := ListingUpTo(rows, n, true);
      assert all[..|all| - 1] == ListingUpTo(rows, n - 1, true);
    }
  }

  /** Listing an image leaves nothing but lines that describe its slots:
      every record line shows an occupied slot of the image. */
  lemma {:induction false} ListingShowsOccupiedSlots(rows: seq<Address>, n: nat, verbose: bool, k: nat)
    requires n <= |rows| && k < |ListingUpTo(rows, n, verbose)|
    ensures ListingUpTo(rows, n, verbose)[k].Record? ==>
      exists i :: 0 <= i < n && rows[i].isSet && ListingUpTo(rows, n, verbose)[k].address == rows[i]
    ensures ListingUpTo(rows, n, verbose)[k].NoRecord? ==>
      verbose && 0 <= ListingUpTo(rows, n, verbose)[k].slot < n && !rows[ListingUpTo(rows, n, verbose)[k].slot].isSet
  {
    var prefix := ListingUpTo(rows, n - 1, verbose);
    if k < |prefix| {
      ListingShowsOccupiedSlots(rows, n - 1, verbose, k);
      assert ListingUpTo(rows, n, verbose)[k] == prefix[k];
    }
  }

  /** Create does not depend on what the slots held: running it twice gives
      the image of running it once. */
  lemma CreateIdempotent(db: DbImage)
    requires Valid(db)
    ensures Cleared(Cleared(db)) == Cleared(db)
  {
  }

  /** Delete does not depend on what the slot held: deleting twice gives the
      image of deleting once. */
  lemma DeleteIdempotent(db: DbImage, id: int)
    requires Valid(db) && IsSlot(db, id)
    ensures Vacated(Vacated(db, id), id) == Vacated(db, id)
  {
  }

  /** Create stamps every slot with its index, and set and delete keep the
      stamps (set leaves the id alone, delete rewrites it to the index). */
  lemma SlotIdsKept(db: DbImage, id: int, name: seq<byte>, email: seq<byte>)
    requires Valid(db) && IsSlot(db, id)
    ensures SlotIdsMatch(Cleared(db))
    ensures SlotIdsMatch(db) ==> SlotIdsMatch(Vacated(db, id))
    ensures SlotIdsMatch(db) && Stored(db, id, name, email).Ok? ==> SlotIdsMatch(Stored(db, id, name, email).value)
  {
  }

  /** After a successful set, get on the slot yields the stored record: its
      old id, and the inputs cut to `max_data - 1` bytes with a terminator in
      the last byte of each buffer. */
  lemma GetAfterSet(db: DbImage, id: int, name: seq<byte>, email: seq<byte>)
    requires Valid(db) && IsSlot(db, id) && !db.rows[id].isSet
    ensures Stored(db, id, name, email).Ok?
    ensures var got := Fetched(Stored(db, id, name, email).value, id);
      got.Ok? && got.value.id == db.rows[id].id &&
      CString(got.value.name) == Truncate(CString(name), db.maxData - 1) &&
      CString(got.value.email) == Truncate(CString(email), db.maxData - 1) &&
      got.value.name[db.maxData - 1] == NUL && got.value.email[db.maxData - 1] == NUL
  {
    var a := db.rows[id];
    var stored := Address(a.id, true, CopyText(name, db.maxData), CopyText(email, db.maxData));
    assert Stored(db, id, name, email) == Ok(db.(rows := db.rows[id := stored]));
    assert Fetched(Stored(db, id, name, email).value, id) == Ok(stored);
  }

  /** After a delete, get on the slot fails and set on it succeeds. */
  lemma AfterDelete(db: DbImage, id: int, name: seq<byte>, email: seq<byte>)
    requires Valid(db) && IsSlot(db, id)
    ensures Fetched(Vacated(db, id), id) == Err(NotSet)
    ensures Stored(Vacated(db, id), id, name, email).Ok?
  {
  }

  /** Deleting a slot that was just set gives the image that deleting it
      without the set would have given. */
  lemma DeleteUndoesSet(db: DbImage, id: int, name: seq<byte>, email: seq<byte>)
    requires Valid(db) && IsSlot(db, id) && Stored(db, id, name, email).Ok?
    ensures Vacated(Stored(db, id, name, email).value, id) == Vacated(db, id)
  {
  }
}
