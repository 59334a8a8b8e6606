/** The columnar transposition of transposition.py. The message is written
    row by row into a grid `key` characters wide and read off column by
    column: column `c` is `message[c], message[c + key], message[c + 2*key], ...`.
    The three routines of the source build their results with loops; each
    is proved against Transposed, and the lemmas state what Transposed does
    to a message. */
module Transposition {

  function Min(a: int, b: int): int {
    if a < b then a else b
  }

  /** The characters from index `i` on at stride `key`:
      `message[i], message[i + key], ...` while the index is in range. */
  function Column(message: string, i: nat, key: nat): string
    requires key >= 1
    decreases |message| - i
  {
    if i >= |message| then [] else [message[i]] + Column(message, i + key, key)
  }

  /** Columns `0 .. n - 1` of the grid of width `key`, one after another. */
  function Columns(message: string, key: nat, n: nat): string
    requires n <= key
  {
    if n == 0 then [] else Columns(message, key, n - 1) + Column(message, n - 1, key)
  }

  /** The ciphertext: every column that holds a character, in column order.
      There are `min(key, len(message))` of them, none when `key` is 0. */
  function Transposed(message: string, key: nat): string {
    Columns(message, key, Min(key, |message|))
  }

  /** columnar_transposition: for each column index until it reaches `key`,
      append that column by stepping through the message `key` at a time. */
  method ColumnarTransposition(message: string, key: int) returns (transposed: string)
    requires key >= 0
    ensures transposed == Transposed(message, key)
  {
    transposed := "";
    for column := 0 to |message|
      invariant column <= key
      invariant transposed == Columns(message, key, column)
    {
      if column == key {
        break;
      }
      var i := column;
      ghost var before := transposed;
      while i < |message|
        invariant column <= i
        invariant transposed + Column(message, i, key) == before + Column(message, column, key)
        decreases |message| - i
      {
        ColumnCons(transposed, message, i, key);
        transposed := transposed + [message[i]];
        i := i + key;
      }
      assert Column(message, i, key) == [];
      assert transposed + [] == transposed;
      ColumnsStep(message, key, column + 1);
    }
  }

  /** crack_columnar_transposition: the same two loops with stride
      `key + 1`. */
  method CrackColumnarTransposition(ciphertext: string, key: int) returns (result: string)
    requires key >= -1
    ensures result == Transposed(ciphertext, key + 1)
  {
    var stride: nat := key + 1;
    result := "";
    for column := 0 to |ciphertext|
      invariant column <= stride
      invariant result == Columns(ciphertext, stride, column)
    {
      if column == stride {
        break;
      }
      var i := column;
      ghost var before := result;
      while i < |ciphertext|
        invariant column <= i
        invariant result + Column(ciphertext, i, stride) == before + Column(ciphertext, column, stride)
        decreases |ciphertext| - i
      {
        ColumnCons(result, ciphertext, i, stride);
        result := result + [ciphertext[i]];
        i := i + stride;
      }
      assert Column(ciphertext, i, stride) == [];
      assert result + [] == result;
      ColumnsStep(ciphertext, stride, column + 1);
    }
  }

  /** brute_force: one candidate per `n` in `0 .. len(ciphertext) - 1`,
      candidate `n` being crack_columnar_transposition(ciphertext, n). */
  method BruteForce(ciphertext: string) returns (results: seq<string>)
    ensures |results| == |ciphertext|
    ensures forall n :: 0 <= n < |ciphertext| ==> results[n] == Transposed(ciphertext, n + 1)
  {
    results := [];
    for n := 0 to |ciphertext|
      invariant |results| == n
      invariant forall j :: 0 <= j < n ==> results[j] == Transposed(ciphertext, j + 1)
    {
      var candidate := CrackColumnarTransposition(ciphertext, n);
      results := results + [candidate];
    }
  }

  /** A column that starts inside the message is its first character
      followed by the column one row further down; appending that character
      to `done` keeps `done` followed by the rest of the column the same. */
  lemma {:induction false} ColumnCons(done: string, message: string, i: nat, key: nat)
    requires key >= 1 && i < |message|
    ensures (done + [message[i]]) + Column(message, i + key, key) == done + Column(message, i, key)
  {
    assert Column(message, i, key) == [message[i]] + Column(message, i + key, key);
  }

  /** One more step of `key` along a column, stated apart from the column
      facts so that the solver meets the product on its own. */
  lemma {:induction false} StepProduct(j: int, key: int)
    ensures (j + 1) * key == j * key + key
  {
  }

  /** Element `j` of the column that starts at `i` is `message[i + j*key]`,
      and the column stops at the first such index past the message. */
  lemma {:induction false} ColumnAt(message: string, i: nat, key: nat)
    requires key >= 1
    ensures forall j :: 0 <= j < |Column(message, i, key)| ==>
      i + j * key < |message| && Column(message, i, key)[j] == message[i + j * key]
    ensures i + |Column(message, i, key)| * key >= |message|
    decreases |message| - i
  {
    var col := Column(message, i, key);
    if i < |message| {
      var rest := Column(message, i + key, key);
      ColumnAt(message, i + key, key);
      forall j | 0 <= j < |col|
        ensures i + j * key < |message| && col[j] == message[i + j * key]
      {
        if j > 0 {
          StepProduct(j - 1, key);
          assert col[j] == rest[j - 1];
        }
      }
      StepProduct(|rest|, key);
    }
  }

  /** Index `p` is on the column that starts at `i`: `p == i + j*key` for some `j >= 0`. */
  predicate OnColumn(p: int, i: nat, key: nat)
    requires key >= 1
    decreases p - i
  {
    i <= p && (i == p || OnColumn(p, i + key, key))
  }

  /** Moving a column's start one row down and the index one row up
      keeps the index on it. */
  lemma {:induction false} OnColumnShift(p: nat, i: nat, key: nat)
    requires key >= 1 && key <= p
    ensures OnColumn(p, i + key, key) <==> OnColumn(p - key, i, key)
    decreases p - i
  {
    if i + key < p {
      OnColumnShift(p, i + key, key);
    }
  }

  /** Every index lies on one of the first `key` columns... */
  lemma {:induction false} LandingColumn(p: nat, key: nat) returns (c: nat)
    requires key >= 1
    ensures c < key && OnColumn(p, c, key)
    decreases p
  {
    if p < key {
      c := p;
    } else {
      c := LandingColumn(p - key, key);
      OnColumnShift(p, c, key);
    }
  }

  /** ... and on only one of them. */
  lemma {:induction false} OtherColumn(p: nat, c: nat, i: nat, key: nat)
    requires c < key && i < key && c != i && OnColumn(p, c, key)
    ensures !OnColumn(p, i, key)
    decreases p
  {
    if p >= key {
      OnColumnShift(p, c, key);
      OnColumnShift(p, i, key);
      OtherColumn(p - key, c, i, key);
    }
  }

  /** Appending a character to the message appends it to the one column
      whose stride reaches its index and leaves every other column as it
      was. */
  lemma {:induction false} ColumnSnoc(message: string, x: char, i: nat, key: nat)
    requires key >= 1
    ensures Column(message + [x], i, key) ==
      Column(message, i, key) + (if OnColumn(|message|, i, key) then [x] else [])
    decreases |message| - i
  {
    var m := message + [x];
    if i < |message| {
      ColumnSnoc(message, x, i + key, key);
      assert m[i] == message[i];
    } else if i == |message| {
      assert Column(m, i + key, key) == [];
    }
  }

  /** `s` with `x` put in at index `p`. */
  function Insert(s: string, p: nat, x: char): (t: string)
    requires p <= |s|
  {
    s[..p] + [x] + s[p..]
  }

  lemma {:induction false} InsertAppend(s: string, p: nat, x: char, t: string)
    requires p <= |s|
    ensures Insert(s, p, x) + t == Insert(s + t, p, x)
  {
    assert (s + t)[..p] == s[..p];
    assert (s + t)[p..] == s[p..] + t;
  }

  lemma {:induction false} InsertAtEnd(s: string, x: char)
    ensures Insert(s, |s|, x) == s + [x]
  {
    assert s[..|s|] == s;
  }

  lemma {:induction false} InsertMultiset(s: string, p: nat, x: char)
    requires p <= |s|
    ensures multiset(Insert(s, p, x)) == multiset(s) + multiset{x}
  {
    assert s == s[..p] + s[p..];
  }

  lemma {:induction false} ColumnSnocOther(message: string, x: char, c: nat, i: nat, key: nat)
    requires c < key && i < key && c != i && OnColumn(|message|, c, key)
    ensures Column(message + [x], i, key) == Column(message, i, key)
  {
    ColumnSnoc(message, x, i, key);
    OtherColumn(|message|, c, i, key);
  }

  /** Columns before the one the new character lands in do not change. */
  lemma {:induction false} ColumnsSnocBefore(message: string, x: char, key: nat, c: nat, n: nat)
    requires c < key && OnColumn(|message|, c, key) && n <= c
    ensures Columns(message + [x], key, n) == Columns(message, key, n)
  {
    if n > 0 {
      assert Columns(message + [x], key, n - 1) == Columns(message, key, n - 1) by {
        ColumnsSnocBefore(message, x, key, c, n - 1);
      }
      assert Column(message + [x], n - 1, key) == Column(message, n - 1, key) by {
        ColumnSnocOther(message, x, c, n - 1, key);
      }
      ColumnsStep(message + [x], key, n);
      ColumnsStep(message, key, n);
    }
  }

  /** The new character ends its own column `c`. */
  lemma {:induction false} ColumnsSnocAt(message: string, x: char, key: nat, c: nat)
    requires c < key && OnColumn(|message|, c, key)
    ensures Columns(message + [x], key, c + 1) == Columns(message, key, c + 1) + [x]
  {
    var m := message + [x];
    ColumnsStep(m, key, c + 1);
    ColumnsStep(message, key, c + 1);
    ColumnSnoc(message, x, c, key);
    ColumnsSnocBefore(message, x, key, c, c);
  }

  /** From the new character's column `c` on, it sits right after the
      columns up to and including `c`. */
  lemma {:induction false} ColumnsSnocAfter(message: string, x: char, key: nat, c: nat, n: nat)
    requires c < key && OnColumn(|message|, c, key) && c < n <= key
    ensures |Columns(message, key, c + 1)| <= |Columns(message, key, n)|
    ensures Columns(message + [x], key, n) == Insert(Columns(message, key, n), |Columns(message, key, c + 1)|, x)
    decreases n
  {
    var p := |Columns(message, key, c + 1)|;
    if n == c + 1 {
      ColumnsSnocAt(message, x, key, c);
      InsertAtEnd(Columns(message, key, n), x);
    } else {
      var grown, before, col := Columns(message + [x], key, n - 1), Columns(message, key, n - 1), Column(message, n - 1, key);
      assert Columns(message + [x], key, n) == grown + col by {
        ColumnsStep(message + [x], key, n);
        ColumnSnocOther(message, x, c, n - 1, key);
      }
      assert Columns(message, key, n) == before + col by {
        ColumnsStep(message, key, n);
      }
      assert p <= |before| && grown == Insert(before, p, x) by {
        ColumnsSnocAfter(message, x, key, c, n - 1);
      }
      InsertAppend(before, p, x, col);
    }
  }

  /** One more column. */
  lemma {:induction false} ColumnsStep(s: string, key: nat, n: nat)
    requires 0 < n <= key
    ensures Columns(s, key, n) == Columns(s, key, n - 1) + Column(s, n - 1, key)
  {
  }

  /** Columns that start past the end of the message are empty. */
  lemma {:induction false} EmptyColumns(message: string, key: nat, n: nat)
    requires |message| <= n <= key
    ensures Columns(message, key, n) == Columns(message, key, |message|)
  {
    if n > |message| {
      EmptyColumns(message, key, n - 1);
    }
  }

  /** Inserting the same character into two sequences with the same
      characters keeps them so. */
  lemma {:induction false} PermutationStep(t: string, t': string, s: string, s': string, p: nat, x: char)
    requires p <= |t| && t' == Insert(t, p, x) && s' == s + [x]
    requires multiset(t) == multiset(s)
    ensures multiset(t') == multiset(s')
  {
    InsertMultiset(t, p, x);
  }

  /** The cipher rearranges the message: for `key >= 1` the ciphertext holds
      every character of the message exactly as often as the message does.
      By induction on the message: its last character lands in exactly one
      column, right after the columns up to and including that one. */
  lemma {:induction false} TransposedPermutation(message: string, key: nat)
    requires key >= 1
    ensures multiset(Transposed(message, key)) == multiset(message)
    decreases |message|
  {
    if message != [] {
      var prefix, x := message[..|message| - 1], message[|message| - 1];
      var c := LandingColumn(|prefix|, key);
      var p := |Columns(prefix, key, c + 1)|;
      assert message == prefix + [x];
      assert p <= |Transposed(prefix, key)| && Transposed(message, key) == Insert(Transposed(prefix, key), p, x) by {
        var n := Min(key, |message|);
        assert c < n by {
          if |prefix| < key {
            assert c == |prefix|;
          }
        }
        assert Transposed(prefix, key) == Columns(prefix, key, n) by {
          if |prefix| < key {
            EmptyColumns(prefix, key, n);
          }
        }
        ColumnsSnocAfter(prefix, x, key, c, n);
      }
      TransposedPermutation(prefix, key);
      PermutationStep(Transposed(prefix, key), Transposed(message, key), prefix, message, p, x);
    }
  }

  /** The ciphertext is as long as the message when `key >= 1`, and empty
      exactly when `key` is 0 or the message is. */
  lemma {:induction false} TransposedLength(message: string, key: nat)
    ensures |Transposed(message, key)| == if key == 0 then 0 else |message|
    ensures Transposed(message, key) == [] <==> key == 0 || message == []
  {
    if key >= 1 {
      TransposedPermutation(message, key);
      assert |multiset(Transposed(message, key))| == |multiset(message)|;
    }
  }

  lemma {:induction false} ColumnStrideOne(message: string, i: nat)
    requires i <= |message|
    ensures Column(message, i, 1) == message[i..]
    decreases |message| - i
  {
    if i < |message| {
      ColumnStrideOne(message, i + 1);
    }
  }

  lemma {:induction false} ColumnsOfWideGrid(message: string, key: nat, n: nat)
    requires n <= |message| <= key
    ensures Columns(message, key, n) == message[..n]
  {
    if n > 0 {
      ColumnsOfWideGrid(message, key, n - 1);
      assert Column(message, n - 1 + key, key) == [];
      assert message[..n] == message[..n - 1] + [message[n - 1]];
    }
  }

  /** A grid one character wide, or at least as wide as the message, gives
      the message back unchanged. */
  lemma {:induction false} TransposedIdentity(message: string, key: nat)
    requires key == 1 || key >= |message|
    ensures Transposed(message, key) == message
  {
    if key >= |message| {
      ColumnsOfWideGrid(message, key, |message|);
    } else {
      ColumnStrideOne(message, 0);
      assert Transposed(message, key) == Columns(message, 1, 0) + Column(message, 0, 1);
      assert message[0..] == message;
    }
  }
}
