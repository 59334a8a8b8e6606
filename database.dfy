/** The in-memory database of ex17.c: `conn->db`, whose `rows` array the
    store operations overwrite slot by slot. Each method is proved against the
    value-level operation of module Store that it performs on the image. */
module Ex17 {
  import opened Records
  import opened Store
  import Codec

  /** `struct Database`: the capacities are fixed when the image is created
      or loaded, and `rows` is the arena of exactly `max_rows` slots. */
  class Database {
    const maxData: int
    const maxRows: int
    const rows: array<Address>

    /** The image the object holds. */
    function Image(): DbImage
      reads this, rows
    {
      DbImage(maxData, maxRows, rows[..])
    }

    ghost predicate Valid()
      reads this, rows
    {
      rows.Length == maxRows && Store.Valid(Image())
    }

    /** An image in memory, with its own freshly allocated slots: the
        starting point of Database_open, either from a loaded file or from a
        configuration that Database_create then clears. */
    constructor (img: DbImage)
      requires Store.Valid(img)
      ensures Valid() && fresh(rows)
      ensures Image() == img
    {
      maxData := img.maxData;
      maxRows := img.maxRows;
      rows := new Address[img.maxRows](i requires 0 <= i < img.maxRows => img.rows[i]);
      new;
      assert rows[..] == img.rows;
    }

    /** Database_create: overwrites every slot with an empty record stamped
        with its index. */
    method Create()
      requires Valid()
      modifies rows
      ensures Valid()
      ensures Image() == Cleared(old(Image()))
    {
      for i := 0 to rows.Length
        invariant forall j :: 0 <= j < i ==> rows[j] == EmptyAddress(j, maxData)
        invariant forall j :: i <= j < rows.Length ==> rows[j] == old(rows[j])
      {
        rows[i] := EmptyAddress(i, maxData);
      }
    }

    /** Database_set: fails, changing nothing, when the slot is occupied;
        otherwise marks it occupied and copies the texts into its buffers. */
    method Set(id: int, name: seq<byte>, email: seq<byte>) returns (r: Result<()>)
      requires Valid() && 0 <= id < maxRows
      modifies rows
      ensures Valid()
      ensures Stored(old(Image()), id, name, email).Ok? ==>
        r == Ok(()) && Image() == Stored(old(Image()), id, name, email).value
      ensures Stored(old(Image()), id, name, email).Err? ==>
        r == Err(AlreadySet) && Image() == old(Image())
    {
      var addr := rows[id];
      if addr.isSet {
        return Err(AlreadySet);
      }
      rows[id] := Address(addr.id, true, CopyText(name, maxData), CopyText(email, maxData));
      r := Ok(());
    }

    /** Database_get: the record of an occupied slot, or an error for an
        empty one; the image is not touched. */
    method Get(id: int) returns (r: Result<Address>)
      requires Valid() && 0 <= id < maxRows
      ensures r == Fetched(Image(), id)
    {
      var addr := rows[id];
      if addr.isSet {
        r := Ok(addr);
      } else {
        r := Err(NotSet);
      }
    }

    /** Database_delete: resets the slot whatever it held. */
    method Delete(id: int)
      requires Valid() && 0 <= id < maxRows
      modifies rows
      ensures Valid()
      ensures Image() == Vacated(old(Image()), id)
    {
      rows[id] := EmptyAddress(id, maxData);
    }

    /** Database_list: one pass over the slots in index order; the image is
        not touched. */
    method List(verbose: bool) returns (lines: seq<Line>)
      requires Valid()
      ensures lines == Listing(Image(), verbose)
    {
      lines := [];
      for i := 0 to rows.Length
        invariant lines == ListingUpTo(rows[..], i, verbose)
      {
        var cur := rows[i];
        if cur.isSet {
          lines := lines + [Record(cur)];
        } else if verbose {
          lines := lines + [NoRecord(i)];
        }
      }
    }

    /** Database_write: the whole image as one block, which loads back as
        this very image. */
    method Write() returns (file: seq<byte>)
      requires Valid()
      ensures |file| == Codec.ImageSize(maxData, maxRows)
      ensures Codec.Load(file) == Ok(Image())
    {
      file := Codec.Encode(Image());
      Codec.RoundTrip(Image(), []);
      assert file + [] == file;
    }
  }

  /** Database_open on an existing file: the database is the loaded image,
      and a file that does not hold a whole image is an error. */
  method OpenExisting(file: seq<byte>) returns (r: Result<Database>)
    ensures r.Err? ==> Codec.Load(file) == Err(r.error)
    ensures r.Ok? ==> fresh(r.value.rows) && r.value.Valid() && Codec.Load(file) == Ok(r.value.Image())
  {
    var loaded := Codec.Load(file);
    if loaded.Err? {
      return Err(loaded.error);
    }
    var db := new Database(loaded.value);
    r := Ok(db);
  }
}
