/** The file image of ex17.c: the header (`max_data`, `max_rows`) followed by
    the `max_rows` records in slot order, every `int` as four bytes, least
    significant first, in two's complement, and every text buffer as its
    `max_data` bytes. Database_write writes this block; Database_load reads
    it back and fails unless a whole image is there. */
module Codec {
  import opened Records
  import opened Store

  /** Bytes of the header: `max_data` and `max_rows`. */
  const HEADER_SIZE: int := 8

  /** Bytes of one record: `id`, `set`, then the two buffers. */
  function RecordSize(maxData: int): int {
    8 + 2 * maxData
  }

  /** Bytes of a whole image: the header, then `maxRows` records
      (`RowsSizeProduct` shows this is `HEADER_SIZE + maxRows * RecordSize(maxData)`). */
  function ImageSize(maxData: nat, maxRows: nat): int {
    HEADER_SIZE + RowsSize(maxRows, maxData)
  }

  /** A C `int` as four bytes, least significant first, two's complement. */
  function EncodeInt32(x: int): (b: seq<byte>)
    requires IsInt32(x)
    ensures |b| == 4
  {
    var u := if x < 0 then x + 0x1_0000_0000 else x;
    [u % 0x100, u / 0x100 % 0x100, u / 0x1_0000 % 0x100, u / 0x100_0000]
  }

  /** Four bytes, least significant first, read back as a C `int`. */
  function DecodeInt32(b: seq<byte>): (x: int)
    requires |b| == 4
    ensures IsInt32(x)
  {
    var u := b[0] as int + 0x100 * (b[1] as int) + 0x1_0000 * (b[2] as int) + 0x100_0000 * (b[3] as int);
    if u <= INT32_MAX then u else u - 0x1_0000_0000
  }

  /** Every C `int` survives its four-byte encoding. */
  lemma Int32RoundTrip(x: int)
    requires IsInt32(x)
    ensures DecodeInt32(EncodeInt32(x)) == x
  {
    var u := if x < 0 then x + 0x1_0000_0000 else x;
    var b := EncodeInt32(x);
    var q0, q1, q2 := u / 0x100, u / 0x1_0000, u / 0x100_0000;
    assert u == u % 0x100 + 0x100 * q0;
    assert q0 == q0 % 0x100 + 0x100 * q1;
    assert q1 == q1 % 0x100 + 0x100 * q2;
    assert b[0] as int + 0x100 * (b[1] as int) + 0x1_0000 * (b[2] as int) + 0x100_0000 * (b[3] as int) == u;
  }

  /** One record: `id`, the `set` flag as the `int` 1 or 0, `name`, `email`. */
  function EncodeRecord(a: Address, maxData: int): (b: seq<byte>)
    requires WellFormed(a, maxData)
    ensures |b| == RecordSize(maxData)
  {
    EncodeInt32(a.id) + EncodeInt32(if a.isSet then 1 else 0) + a.name + a.email
  }

  /** One record read back; any non-zero `set` counts as occupied, as the
      source's `if (addr->set)` tests it. */
  function DecodeRecord(b: seq<byte>, maxData: nat): (a: Address)
    requires |b| == RecordSize(maxData)
    ensures WellFormed(a, maxData)
  {
    Address(DecodeInt32(b[..4]), DecodeInt32(b[4..8]) != 0, b[8..8 + maxData], b[8 + maxData..])
  }

  lemma RecordRoundTrip(a: Address, maxData: nat)
    requires WellFormed(a, maxData)
    ensures DecodeRecord(EncodeRecord(a, maxData), maxData) == a
  {
    var b := EncodeRecord(a, maxData);
    assert b[..4] == EncodeInt32(a.id);
    assert b[4..8] == EncodeInt32(if a.isSet then 1 else 0);
    assert b[8..8 + maxData] == a.name;
    assert b[8 + maxData..] == a.email;
    Int32RoundTrip(a.id);
    Int32RoundTrip(if a.isSet then 1 else 0);
  }

  /** The records of `rows`, one after the other in slot order. */
  function EncodeRows(rows: seq<Address>, maxData: nat): (b: seq<byte>)
    requires forall i :: 0 <= i < |rows| ==> WellFormed(rows[i], maxData)
    ensures |b| == RowsSize(|rows|, maxData)
  {
    if rows == [] then []
    else EncodeRecord(rows[0], maxData) + EncodeRows(rows[1..], maxData)
  }

  /** Bytes of `count` records, counted record by record. */
  function RowsSize(count: nat, maxData: nat): nat {
    if count == 0 then 0 else RowsSize(count - 1, maxData) + RecordSize(maxData)
  }

  /** The record-by-record count is `count` times the record size. */
  lemma {:induction false} RowsSizeProduct(count: nat, maxData: nat)
    ensures RowsSize(count, maxData) == count * RecordSize(maxData)
  {
    if count > 0 {
      RowsSizeProduct(count - 1, maxData);
      assert count * RecordSize(maxData) == (count - 1) * RecordSize(maxData) + RecordSize(maxData);
    }
  }

  /** `count` records read from the front of `b`. */
  function DecodeRows(b: seq<byte>, count: nat, maxData: nat): (rows: seq<Address>)
    requires |b| >= RowsSize(count, maxData)
    ensures |rows| == count
    ensures forall i :: 0 <= i < count ==> WellFormed(rows[i], maxData)
  {
    if count == 0 then []
    else
      var size := RecordSize(maxData);
      [DecodeRecord(b[..size], maxData)] + DecodeRows(b[size..], count - 1, maxData)
  }

  lemma SplitAt(head: seq<byte>, tail: seq<byte>)
    ensures (head + tail)[..|head|] == head && (head + tail)[|head|..] == tail
  {
  }

  /** Reading `count` records takes one record off the front, then the rest. */
  lemma DecodeRowsCons(head: seq<byte>, tail: seq<byte>, count: nat, maxData: nat)
    requires count > 0 && |head| == RecordSize(maxData) && |tail| >= RowsSize(count - 1, maxData)
    ensures DecodeRows(head + tail, count, maxData) == [DecodeRecord(head, maxData)] + DecodeRows(tail, count - 1, maxData)
  {
    SplitAt(head, tail);
  }

  lemma {:induction false} RowsRoundTrip(rows: seq<Address>, maxData: nat, rest: seq<byte>)
    requires forall i :: 0 <= i < |rows| ==> WellFormed(rows[i], maxData)
    ensures DecodeRows(EncodeRows(rows, maxData) + rest, |rows|, maxData) == rows
  {
    if rows != [] {
      var head := EncodeRecord(rows[0], maxData);
      var tail := EncodeRows(rows[1..], maxData) + rest;
      assert EncodeRows(rows, maxData) + rest == head + tail;
      DecodeRowsCons(head, tail, |rows|, maxData);
      RecordRoundTrip(rows[0], maxData);
      RowsRoundTrip(rows[1..], maxData, rest);
      assert rows == [rows[0]] + rows[1..];
    }
  }

  /** The block Database_write puts in the file: header, then every slot. */
  function Encode(db: DbImage): (b: seq<byte>)
    requires Valid(db)
    ensures |b| == ImageSize(db.maxData, db.maxRows)
  {
    EncodeInt32(db.maxData) + EncodeInt32(db.maxRows) + EncodeRows(db.rows, db.maxData)
  }

  /** The file holds a whole header whose capacities leave room for a
      terminator in each buffer and are not a negative row count. */
  predicate HeaderSane(file: seq<byte>)
  {
    |file| >= HEADER_SIZE && DecodeInt32(file[..4]) >= 1 && DecodeInt32(file[4..8]) >= 0
  }

  /** Database_load: the header gives the capacities, and the load fails
      unless the file holds at least one whole image of that size; bytes
      after it are not read. A header with no room for a terminator or a
      negative row count is refused too. */
  function Load(file: seq<byte>): (r: Result<DbImage>)
    ensures r.Ok? ==> Valid(r.value) && ImageSize(r.value.maxData, r.value.maxRows) <= |file|
    ensures r.Err? ==> r.error == LoadFailed
    ensures r.Ok? <==> HeaderSane(file) && |file| >= ImageSize(DecodeInt32(file[..4]), DecodeInt32(file[4..8]))
  {
    if |file| < HEADER_SIZE then Err(LoadFailed)
    else
      var maxData := DecodeInt32(file[..4]);
      var maxRows := DecodeInt32(file[4..8]);
      if maxData < 1 || maxRows < 0 || |file| < ImageSize(maxData, maxRows) then Err(LoadFailed)
      else Ok(DbImage(maxData, maxRows, DecodeRows(file[HEADER_SIZE..], maxRows, maxData)))
  }

  /** A file that starts with the header of an encoded image holds that
      image's capacities in its header. */
  lemma HeaderOf(db: DbImage, file: seq<byte>)
    requires Valid(db) && HEADER_SIZE <= |file| && HEADER_SIZE <= |Encode(db)|
    requires file[..HEADER_SIZE] == Encode(db)[..HEADER_SIZE]
    ensures DecodeInt32(file[..4]) == db.maxData && DecodeInt32(file[4..8]) == db.maxRows
  {
    var e := Encode(db);
    var front, tail := EncodeInt32(db.maxData) + EncodeInt32(db.maxRows), EncodeRows(db.rows, db.maxData);
    assert e == front + tail;
    assert file[..4] == front[..4] by {
      assert file[..4] == file[..HEADER_SIZE][..4];
    }
    assert file[4..8] == front[4..8] by {
      assert file[4..8] == file[..HEADER_SIZE][4..8];
    }
    assert front[..4] == EncodeInt32(db.maxData);
    assert front[4..8] == EncodeInt32(db.maxRows);
    Int32RoundTrip(db.maxData);
    Int32RoundTrip(db.maxRows);
  }

  /** What Database_write writes, Database_load reads back unchanged, also
      when the file goes on past the image. */
  lemma RoundTrip(db: DbImage, rest: seq<byte>)
    requires Valid(db)
    ensures Load(Encode(db) + rest) == Ok(db)
  {
    var file := Encode(db) + rest;
    assert file[..HEADER_SIZE] == Encode(db)[..HEADER_SIZE];
    HeaderOf(db, file);
    assert DecodeRows(file[HEADER_SIZE..], db.maxRows, db.maxData) == db.rows by {
      assert file[HEADER_SIZE..] == EncodeRows(db.rows, db.maxData) + rest;
      RowsRoundTrip(db.rows, db.maxData, rest);
    }
    LoadAccepts(file, db);
  }

  /** A file whose header holds the capacities of a valid image and whose
      records decode to its slots loads as that image. */
  lemma LoadAccepts(file: seq<byte>, db: DbImage)
    requires Valid(db) && |file| >= ImageSize(db.maxData, db.maxRows)
    requires DecodeInt32(file[..4]) == db.maxData && DecodeInt32(file[4..8]) == db.maxRows
    requires DecodeRows(file[HEADER_SIZE..], db.maxRows, db.maxData) == db.rows
    ensures Load(file) == Ok(db)
  {
  }

  /** A file cut short anywhere inside an image does not load. */
  lemma ShortImageFails(db: DbImage, k: nat)
    requires Valid(db) && k < |Encode(db)|
    ensures Load(Encode(db)[..k]) == Err(LoadFailed)
  {
    var file := Encode(db)[..k];
    if k >= HEADER_SIZE {
      assert file[..HEADER_SIZE] == Encode(db)[..HEADER_SIZE];
      HeaderOf(db, file);
    }
  }
}
