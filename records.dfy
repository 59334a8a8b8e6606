/** The record of ex17.c (`struct Address`) and the C-string handling that
    Database_set relies on: `strncpy` into a fixed-size buffer followed by an
    explicit terminator in its last byte. */
module Records {

  /** One C `char` of a text buffer. */
  type byte = b: int | 0 <= b < 256

  const NUL: byte := 0

  /** `struct Address`. The C field `set` is an `int` used only as a flag
      (`set` is a keyword in Dafny, hence `isSet`); `name` and `email` are the
      record's fixed-size text buffers, `max_data` bytes each. */
  datatype Address = Address(id: int, isSet: bool, name: seq<byte>, email: seq<byte>)

  /** A buffer of `n` zero bytes. */
  function Zeros(n: nat): (z: seq<byte>)
    ensures |z| == n
    ensures forall k :: 0 <= k < n ==> z[k] == NUL
  {
    seq(n, _ => NUL)
  }

  /** `{ .id = id, .set = 0 }`: an unoccupied slot whose buffers are zeroed. */
  function EmptyAddress(id: int, maxData: nat): (a: Address)
    ensures a.id == id && !a.isSet
    ensures |a.name| == maxData && |a.email| == maxData
  {
    Address(id, false, Zeros(maxData), Zeros(maxData))
  }

  /** The text a NUL-terminated buffer holds, as `printf("%s")` shows it: the
      bytes before the first NUL, or the whole buffer if it holds none. */
  function CString(buf: seq<byte>): (s: seq<byte>)
    ensures |s| <= |buf| && s == buf[..|s|]
    ensures NUL !in s
    ensures |s| < |buf| ==> buf[|s|] == NUL
  {
    if buf == [] || buf[0] == NUL then [] else [buf[0]] + CString(buf[1..])
  }

  /** The three properties in CString's contract single out its result. */
  lemma CStringUnique(buf: seq<byte>, t: seq<byte>)
    requires |t| <= |buf| && t == buf[..|t|]
    requires NUL !in t
    requires |t| < |buf| ==> buf[|t|] == NUL
    ensures t == CString(buf)
  {
  }

  /** The first `n` elements of `s`, or all of `s` when it is shorter. */
  function Truncate(s: seq<byte>, n: nat): (t: seq<byte>)
    ensures |t| == if |s| <= n then |s| else n
    ensures t <= s
  {
    if |s| <= n then s else s[..n]
  }

  /** `strncpy(dst, src, n)`: copies the C string `src` (its bytes up to the
      first NUL) into `n` bytes, stopping after `n` bytes and filling what is
      left with NUL. A source of `n` or more bytes leaves no terminator. */
  function StrNCpy(src: seq<byte>, n: nat): (dst: seq<byte>)
    ensures |dst| == n
    ensures forall k :: 0 <= k < n ==> dst[k] == if k < |CString(src)| then src[k] else NUL
  {
    if n == 0 then []
    else if src == [] || src[0] == NUL then Zeros(n)
    else [src[0]] + StrNCpy(src[1..], n - 1)
  }

  /** The copy Database_set makes of `name` or `email`: `strncpy` into the
      `max_data` bytes of the buffer, then `res[max_data - 1] = '\0'`. The
      stored text is the input cut to at most `max_data - 1` bytes, and the
      buffer always ends in a terminator. */
  function CopyText(src: seq<byte>, maxData: int): (buf: seq<byte>)
    requires maxData >= 1
    ensures |buf| == maxData
    ensures buf[maxData - 1] == NUL
    ensures CString(buf) == Truncate(CString(src), maxData - 1)
  {
    var buf := StrNCpy(src, maxData)[maxData - 1 := NUL];
    var t := Truncate(CString(src), maxData - 1);
    assert t == buf[..|t|] by {
      forall k | 0 <= k < |t| ensures t[k] == buf[k] {
        assert k < |CString(src)|;
      }
    }
    CStringUnique(buf, t);
    buf
  }
}
