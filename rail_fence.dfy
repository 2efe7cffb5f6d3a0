/**
 * The rail-fence transposition of cypher_implementations.py
 * (rail_fence_encryption and rail_fence_decryption).
 *
 * A text of length n is written into a grid of `rails` rows and n columns,
 * column i in the row the zig-zag walk is on at step i; the ciphertext is the
 * grid read row by row. Decryption replays the walk to mark the cells with
 * '*', fills the marked cells in row-major order from the ciphertext, and
 * reads the text back along the walk.
 *
 * Two behaviours of the source are kept:
 *  - encryption initialises the grid with '.' and skips every cell equal to
 *    '.' when reading it, so a '.' of the plaintext is dropped;
 *  - with fewer than two rails the walk leaves the grid as soon as there are
 *    two columns (one column when there is no row at all) and the write
 *    raises IndexError, modelled as the outcome `IndexError`.
 */
module RailFence {

  /** What a call produces: the text, or the IndexError Python raises when
      the walk writes to a row the grid does not have. */
  datatype Outcome = Ok(text: string) | IndexError

  /** The walk's state between two columns: the row of the next column and
      the direction of travel, 1 downwards and -1 upwards. */
  datatype Cursor = Cursor(rail: int, direction: int)

  /** One step of the walk: move, then turn round on arriving at the top or
      the bottom row. */
  function Step(c: Cursor, rails: int): Cursor
  {
    var rail := c.rail + c.direction;
    Cursor(rail, if rail == 0 || rail == rails - 1 then -c.direction else c.direction)
  }

  /** The state of the walk at column i, starting from row 0 going down. */
  function Walk(i: nat, rails: int): Cursor
  {
    if i == 0 then Cursor(0, 1) else Step(Walk(i - 1, rails), rails)
  }

  /** The row column i is written to. */
  function RailAt(i: nat, rails: int): int
  {
    Walk(i, rails).rail
  }

  /** Number of rows of the grid (`range(rails)` is empty for rails <= 0). */
  function Height(rails: int): nat
  {
    if rails > 0 then rails else 0
  }

  /** The walk stays inside the grid for the first n columns, so no write
      raises IndexError. */
  predicate Fits(n: nat, rails: int)
  {
    forall i :: 0 <= i < n ==> 0 <= RailAt(i, rails) < rails
  }

  // ---------------------------------------------------------------------
  // The zig-zag path

  /** The triangle wave 0, 1, ..., rails-1, rails-2, ..., 1, 0, 1, ... of
      period 2 * (rails - 1): the independent description of the path. */
  function Triangle(i: nat, rails: int): (r: int)
    requires rails >= 2
    ensures 0 <= r < rails
  {
    var m := i % (2 * (rails - 1));
    if m < rails then m else 2 * (rails - 1) - m
  }

  /** The direction the triangle wave takes after column i. */
  function Heading(i: nat, rails: int): int
    requires rails >= 2
  {
    if i % (2 * (rails - 1)) < rails - 1 then 1 else -1
  }

  lemma ModUnique(y: int, p: int, q: int, x: int)
    requires p > 0 && y == p * q + x && 0 <= x < p
    ensures y % p == x
  {
    var d := y / p - q;
    assert p * d == x - y % p;
    if d > 0 {
      assert false;
    } else if d < 0 {
      assert false;
    }
  }

  lemma ModSucc(i: nat, p: int)
    requires p > 0
    ensures (i + 1) % p == if i % p + 1 < p then i % p + 1 else 0
  {
    var q, m := i / p, i % p;
    if m + 1 < p {
      ModUnique(i + 1, p, q, m + 1);
    } else {
      assert i + 1 == p * (q + 1) + 0;
      ModUnique(i + 1, p, q + 1, 0);
    }
  }

  /** For two or more rails the walk of the code is the triangle wave, both
      its row and its direction; in particular it never leaves the grid. */
  lemma {:induction false} WalkIsTriangle(i: nat, rails: int)
    requires rails >= 2
    ensures Walk(i, rails) == Cursor(Triangle(i, rails), Heading(i, rails))
    ensures 0 <= RailAt(i, rails) < rails
  {
    if i > 0 {
      WalkIsTriangle(i - 1, rails);
      ModSucc(i - 1, 2 * (rails - 1));
    }
  }

  /** For fewer than two rails the walk never turns: column i goes to row i. */
  lemma {:induction false} WalkBelowTwoRails(i: nat, rails: int)
    requires rails < 2
    ensures Walk(i, rails) == Cursor(i, 1)
  {
    if i > 0 {
      WalkBelowTwoRails(i - 1, rails);
    }
  }

  /** The row index never becomes negative, so Python's negative indexing
      never comes into play. */
  lemma RailNonNegative(i: nat, rails: int)
    ensures RailAt(i, rails) >= 0
  {
    if rails >= 2 {
      WalkIsTriangle(i, rails);
    } else {
      WalkBelowTwoRails(i, rails);
    }
  }

  /** Exactly when the source raises IndexError: the walk fits the grid iff
      the text is empty, there are two or more rails, or one rail and one
      character. */
  lemma FitsIff(n: nat, rails: int)
    ensures Fits(n, rails) <==> (n == 0 || rails >= 2 || (rails == 1 && n == 1))
  {
    if rails >= 2 {
      forall i | 0 <= i < n ensures 0 <= RailAt(i, rails) < rails {
        WalkIsTriangle(i, rails);
      }
    } else if n > 0 {
      WalkBelowTwoRails(0, rails);
      if n >= 2 {
        WalkBelowTwoRails(1, rails);
        assert !(0 <= RailAt(1, rails) < rails);
      } else if rails < 1 {
        assert !(0 <= RailAt(0, rails) < rails);
      }
    }
  }

  /** While the walk is still above the bottom row it goes straight down:
      column i is written to row i. */
  lemma {:induction false} WalkStraight(i: nat, rails: int)
    requires i < rails
    ensures RailAt(i, rails) == i
    ensures i + 1 < rails ==> Walk(i, rails).direction == 1
  {
    if i > 0 {
      WalkStraight(i - 1, rails);
    }
  }

  // ---------------------------------------------------------------------
  // The path as a sequence of rows

  /** The rows of the first n columns of the walk. Everything below about
      grids is stated for an arbitrary path, and the walk enters only here. */
  function Path(n: nat, rails: int): seq<int>
  {
    seq(n, j requires 0 <= j < n => RailAt(j, rails))
  }

  /** Every column of the path lies in one of the grid's `rows` rows. */
  predicate InGrid(path: seq<int>, rows: int)
  {
    forall j :: 0 <= j < |path| ==> 0 <= path[j] < rows
  }

  /** Fitting the walk and the path lying in the grid are the same thing. */
  lemma FitsInGrid(n: nat, rails: int)
    ensures Fits(n, rails) <==> InGrid(Path(n, rails), Height(rails))
  {
    var path := Path(n, rails);
    if Fits(n, rails) && n > 0 {
      assert 0 <= RailAt(0, rails) < rails;
      forall j | 0 <= j < n ensures 0 <= path[j] < Height(rails) {
        assert 0 <= RailAt(j, rails) < rails;
      }
    }
    if InGrid(path, Height(rails)) && n > 0 {
      assert 0 <= path[0] < Height(rails);
      forall j | 0 <= j < n ensures 0 <= RailAt(j, rails) < rails {
        assert 0 <= path[j] < Height(rails);
      }
    }
  }

  // ---------------------------------------------------------------------
  // Counting the cells the path marks

  /** Number of columns j < k the path puts in row r. */
  function CountOnRow(path: seq<int>, r: int, k: nat): nat
    requires k <= |path|
  {
    if k == 0 then 0
    else CountOnRow(path, r, k - 1) + (if path[k - 1] == r then 1 else 0)
  }

  /** Number of columns j < k the path puts in one of the rows 0 .. r-1. */
  function CountAbove(path: seq<int>, r: int, k: nat): nat
    requires k <= |path|
  {
    if k == 0 then 0
    else CountAbove(path, r, k - 1) + (if 0 <= path[k - 1] < r then 1 else 0)
  }

  /** Position of the marked cell (r, j) among all marked cells of the grid
      in row-major order. */
  function Rank(path: seq<int>, r: int, j: nat): nat
    requires j <= |path|
  {
    CountAbove(path, r, |path|) + CountOnRow(path, r, j)
  }

  lemma {:induction false} CountSplit(path: seq<int>, r: int, k: nat)
    requires 0 <= r && k <= |path|
    ensures CountAbove(path, r + 1, k) == CountAbove(path, r, k) + CountOnRow(path, r, k)
  {
    if k > 0 {
      CountSplit(path, r, k - 1);
    }
  }

  lemma {:induction false} CountAboveMonotone(path: seq<int>, r: int, s: int, k: nat)
    requires r <= s && k <= |path|
    ensures CountAbove(path, r, k) <= CountAbove(path, s, k) <= k
  {
    if k > 0 {
      CountAboveMonotone(path, r, s, k - 1);
    }
  }

  lemma {:induction false} CountOnRowGrows(path: seq<int>, j: nat, k: nat)
    requires j < k <= |path|
    ensures CountOnRow(path, path[j], j) < CountOnRow(path, path[j], k)
  {
    if k > j + 1 {
      CountOnRowGrows(path, j, k - 1);
    }
  }

  lemma {:induction false} CountOnRowMonotone(path: seq<int>, r: int, j: nat, k: nat)
    requires j <= k <= |path|
    ensures CountOnRow(path, r, j) <= CountOnRow(path, r, k)
  {
    if k > j {
      CountOnRowMonotone(path, r, j, k - 1);
    }
  }

  /** No column lies above the top row. */
  lemma {:induction false} NoneAboveTop(path: seq<int>, k: nat)
    requires k <= |path|
    ensures CountAbove(path, 0, k) == 0
  {
    if k > 0 {
      NoneAboveTop(path, k - 1);
    }
  }

  /** The path marks exactly one cell per column, so when it lies in the
      grid the first k columns hold exactly k marked cells. */
  lemma {:induction false} MarkedCells(path: seq<int>, rows: int, k: nat)
    requires InGrid(path, rows) && k <= |path|
    ensures CountAbove(path, rows, k) == k
  {
    if k > 0 {
      MarkedCells(path, rows, k - 1);
    }
  }

  /** Every marked cell has a rank below the number of columns, so the fill
      loop's `index < len(ciphertext)` guard never stops a marked cell being
      filled. */
  lemma RankInRange(path: seq<int>, rows: int, j: nat)
    requires InGrid(path, rows) && j < |path|
    ensures Rank(path, path[j], j) < |path|
  {
    var n, r := |path|, path[j];
    CountOnRowGrows(path, j, n);
    CountSplit(path, r, n);
    CountAboveMonotone(path, r + 1, rows, n);
    MarkedCells(path, rows, n);
  }

  /** Distinct columns mark cells of distinct ranks: within a row the ranks
      grow from left to right, and every rank of a row lies below every rank
      of the rows under it. */
  lemma RankInjective(path: seq<int>, rows: int, j: nat, j': nat)
    requires InGrid(path, rows) && j < j' < |path|
    ensures Rank(path, path[j], j) != Rank(path, path[j'], j')
  {
    var n, r, r' := |path|, path[j], path[j'];
    if r == r' {
      CountOnRowGrows(path, j, j');
    } else if r < r' {
      CountOnRowGrows(path, j, n);
      CountSplit(path, r, n);
      CountAboveMonotone(path, r + 1, r', n);
    } else {
      CountOnRowGrows(path, j', n);
      CountSplit(path, r', n);
      CountAboveMonotone(path, r' + 1, r, n);
    }
  }

  // ---------------------------------------------------------------------
  // The specification of encryption

  /** Row r of the encryption grid over the first k columns, read left to
      right with the '.' cells skipped. */
  function Row(text: string, path: seq<int>, r: int, k: nat): string
    requires |text| == |path| && k <= |text|
  {
    if k == 0 then []
    else Row(text, path, r, k - 1)
         + (if path[k - 1] == r && text[k - 1] != '.' then [text[k - 1]] else [])
  }

  /** Rows 0 .. r-1 of the encryption grid over the first k columns. */
  function Rows(text: string, path: seq<int>, r: nat, k: nat): string
    requires |text| == |path| && k <= |text|
  {
    if r == 0 then [] else Rows(text, path, r - 1, k) + Row(text, path, r - 1, k)
  }

  /** What rail_fence_encryption returns. */
  function Encrypted(text: string, rails: int): Outcome
  {
    if Fits(|text|, rails) then Ok(Rows(text, Path(|text|, rails), Height(rails), |text|))
    else IndexError
  }

  /** The text with its '.' characters removed. */
  function WithoutDots(s: string): (r: string)
    ensures '.' !in s ==> r == s
  {
    if s == [] then []
    else WithoutDots(s[..|s| - 1]) + (if s[|s| - 1] != '.' then [s[|s| - 1]] else [])
  }

  // ---------------------------------------------------------------------
  // The specification of decryption

  /** The character the fill loop leaves in the marked cell of rank k: the
      k-th ciphertext character, or the mark '*' itself had the ciphertext
      run out (which RankInRange shows never happens). */
  function Filled(ciphertext: string, k: nat): char
  {
    if k < |ciphertext| then ciphertext[k] else '*'
  }

  /** The text read back along a path from a grid whose marked cells were
      filled in row-major order: column j gets the character of its cell's
      rank. */
  function Spread(ciphertext: string, path: seq<int>): string
  {
    seq(|path|, j requires 0 <= j < |path| => Filled(ciphertext, Rank(path, path[j], j)))
  }

  /** What rail_fence_decryption returns. */
  function Decrypted(ciphertext: string, rails: int): Outcome
  {
    if Fits(|ciphertext|, rails) then Ok(Spread(ciphertext, Path(|ciphertext|, rails)))
    else IndexError
  }

  // ---------------------------------------------------------------------
  // The two functions of the source

  /** rail_fence_encryption. */
  method Encrypt(plaintext: string, rails: int) returns (out: Outcome)
    ensures out == Encrypted(plaintext, rails)
  {
    var n := |plaintext|;
    var fence := new char[Height(rails), n]((_, _) => '.');
    var rail, direction := 0, 1;
    for i := 0 to n
      invariant Cursor(rail, direction) == Walk(i, rails)
      invariant Fits(i, rails)
      invariant forall r, j :: 0 <= r < fence.Length0 && 0 <= j < n ==>
        fence[r, j] == if j < i && RailAt(j, rails) == r then plaintext[j] else '.'
    {
      RailNonNegative(i, rails);
      if rail >= fence.Length0 {
        assert !(RailAt(i, rails) < rails);
        return IndexError;
      }
      fence[rail, i] := plaintext[i];
      rail := rail + direction;
      if rail == 0 || rail == rails - 1 {
        direction := -direction;
      }
    }
    var ciphertext := ReadRows(fence, plaintext, Path(n, rails));
    return Ok(ciphertext);
  }

  /** The read loop of rail_fence_encryption: the grid row by row, left to
      right, skipping the '.' cells. */
  method ReadRows(fence: array2<char>, ghost text: string, ghost path: seq<int>) returns (ciphertext: string)
    requires fence.Length1 == |text| == |path|
    requires forall r, j :: 0 <= r < fence.Length0 && 0 <= j < fence.Length1 ==>
      fence[r, j] == if path[j] == r then text[j] else '.'
    ensures ciphertext == Rows(text, path, fence.Length0, |text|)
  {
    ciphertext := "";
    for row := 0 to fence.Length0
      invariant ciphertext == Rows(text, path, row, |text|)
    {
      for i := 0 to fence.Length1
        invariant ciphertext == Rows(text, path, row, |text|) + Row(text, path, row, i)
      {
        if fence[row, i] != '.' {
          ciphertext := ciphertext + [fence[row, i]];
        }
      }
    }
  }

  /** The fill loop of rail_fence_decryption: the marked cells, in row-major
      order, receive the ciphertext characters in sequence, and the loop
      consumes exactly the whole ciphertext. */
  method FillMarkedCells(fence: array2<char>, ciphertext: string, ghost path: seq<int>)
    returns (index: nat)
    requires InGrid(path, fence.Length0) && fence.Length1 == |ciphertext| == |path|
    requires forall r, j :: 0 <= r < fence.Length0 && 0 <= j < fence.Length1 ==>
      fence[r, j] == if path[j] == r then '*' else '.'
    modifies fence
    ensures index == |ciphertext|
    ensures forall r, j :: 0 <= r < fence.Length0 && 0 <= j < fence.Length1 ==>
      fence[r, j] == if path[j] == r then Filled(ciphertext, Rank(path, r, j)) else '.'
  {
    index := 0;
    NoneAboveTop(path, |path|);
    for row := 0 to fence.Length0
      invariant index == CountAbove(path, row, |path|)
      invariant forall r, j :: 0 <= r < fence.Length0 && 0 <= j < fence.Length1 ==>
        fence[r, j] == if path[j] != r then '.'
                       else if r < row then Filled(ciphertext, Rank(path, r, j))
                       else '*'
    {
      index := FillRow(fence, ciphertext, path, row, index);
    }
    MarkedCells(path, fence.Length0, |path|);
  }

  /** One pass of the fill loop over row `row`. */
  method FillRow(fence: array2<char>, ciphertext: string, ghost path: seq<int>, row: int, index0: nat)
    returns (index: nat)
    requires InGrid(path, fence.Length0) && fence.Length1 == |ciphertext| == |path|
    requires 0 <= row < fence.Length0 && index0 == CountAbove(path, row, |path|)
    requires forall r, j :: 0 <= r < fence.Length0 && 0 <= j < fence.Length1 ==>
      fence[r, j] == if path[j] != r then '.'
                     else if r < row then Filled(ciphertext, Rank(path, r, j))
                     else '*'
    modifies fence
    ensures index == CountAbove(path, row + 1, |path|)
    ensures forall r, j :: 0 <= r < fence.Length0 && 0 <= j < fence.Length1 ==>
      fence[r, j] == if path[j] != r then '.'
                     else if r <= row then Filled(ciphertext, Rank(path, r, j))
                     else '*'
  {
    var n := |ciphertext|;
    index := index0;
    for i := 0 to n
      invariant index == Rank(path, row, i)
      invariant forall r, j :: 0 <= r < fence.Length0 && 0 <= j < n ==>
        fence[r, j] == if path[j] != r then '.'
                       else if r < row || (r == row && j < i) then Filled(ciphertext, Rank(path, r, j))
                       else '*'
    {
      if fence[row, i] == '*' {
        RankInRange(path, fence.Length0, i);
      }
      if fence[row, i] == '*' && index < n {
        fence[row, i] := ciphertext[index];
        index := index + 1;
      }
    }
    CountSplit(path, row, n);
  }

  /** The last loop of rail_fence_decryption: walk the grid again and read
      each column's cell on the walk's row. */
  method ReadAlongWalk(fence: array2<char>, rails: int) returns (plaintext: string)
    requires Fits(fence.Length1, rails) && fence.Length0 == Height(rails)
    ensures |plaintext| == fence.Length1
    ensures forall j :: 0 <= j < fence.Length1 ==> plaintext[j] == fence[RailAt(j, rails), j]
  {
    var rail, direction := 0, 1;
    plaintext := "";
    for i := 0 to fence.Length1
      invariant Cursor(rail, direction) == Walk(i, rails)
      invariant |plaintext| == i
      invariant forall j :: 0 <= j < i ==> 0 <= RailAt(j, rails) < fence.Length0 && plaintext[j] == fence[RailAt(j, rails), j]
    {
      assert 0 <= RailAt(i, rails) < rails;
      plaintext := plaintext + [fence[rail, i]];
      rail := rail + direction;
      if rail == 0 || rail == rails - 1 {
        direction := -direction;
      }
    }
  }

  /** rail_fence_decryption. */
  method Decrypt(ciphertext: string, rails: int) returns (out: Outcome)
    ensures out == Decrypted(ciphertext, rails)
  {
    var n := |ciphertext|;
    var fence := new char[Height(rails), n]((_, _) => '.');
    var rail, direction := 0, 1;
    for i := 0 to n
      invariant Cursor(rail, direction) == Walk(i, rails)
      invariant Fits(i, rails)
      invariant forall r, j :: 0 <= r < fence.Length0 && 0 <= j < n ==>
        fence[r, j] == if j < i && RailAt(j, rails) == r then '*' else '.'
    {
      RailNonNegative(i, rails);
      if rail >= fence.Length0 {
        assert !(RailAt(i, rails) < rails);
        return IndexError;
      }
      fence[rail, i] := '*';
      rail := rail + direction;
      if rail == 0 || rail == rails - 1 {
        direction := -direction;
      }
    }

    FitsInGrid(n, rails);
    var _ := FillMarkedCells(fence, ciphertext, Path(n, rails));

    var plaintext := ReadAlongWalk(fence, rails);
    return Ok(plaintext);
  }

  // ---------------------------------------------------------------------
  // Properties of encryption

  lemma {:induction false} RowLength(text: string, path: seq<int>, r: int, k: nat)
    requires |text| == |path| && k <= |text| && '.' !in text
    ensures |Row(text, path, r, k)| == CountOnRow(path, r, k)
  {
    if k > 0 {
      RowLength(text, path, r, k - 1);
      assert text[k - 1] in text;
    }
  }

  /** Within its row, the character of column j follows the row's earlier
      columns. */
  lemma {:induction false} RowAt(text: string, path: seq<int>, j: nat, k: nat)
    requires |text| == |path| && j < k <= |text| && '.' !in text
    ensures CountOnRow(path, path[j], j) < |Row(text, path, path[j], k)|
    ensures Row(text, path, path[j], k)[CountOnRow(path, path[j], j)] == text[j]
  {
    var r := path[j];
    RowLength(text, path, r, k);
    CountOnRowGrows(path, j, k);
    if k > j + 1 {
      RowAt(text, path, j, k - 1);
    } else {
      RowLength(text, path, r, j);
      assert text[j] in text;
    }
  }

  lemma {:induction false} RowsLength(text: string, path: seq<int>, rows: nat, k: nat)
    requires |text| == |path| && k <= |text| && '.' !in text
    ensures |Rows(text, path, rows, k)| == CountAbove(path, rows, k)
  {
    if rows == 0 {
      NoneAboveTop(path, k);
    } else {
      RowsLength(text, path, rows - 1, k);
      RowLength(text, path, rows - 1, k);
      CountSplit(path, rows - 1, k);
    }
  }

  /** In the ciphertext, the character of column j stands at the rank of
      column j's marked cell. */
  lemma {:induction false} RowsAt(text: string, path: seq<int>, rows: nat, j: nat)
    requires |text| == |path| && j < |text| && '.' !in text && 0 <= path[j] < rows
    ensures Rank(path, path[j], j) < |Rows(text, path, rows, |text|)|
    ensures Rows(text, path, rows, |text|)[Rank(path, path[j], j)] == text[j]
  {
    var n, r := |text|, path[j];
    var above, row := Rows(text, path, rows - 1, n), Row(text, path, rows - 1, n);
    assert Rows(text, path, rows, n) == above + row;
    RowsLength(text, path, rows - 1, n);
    if r == rows - 1 {
      RowAt(text, path, j, n);
      assert (above + row)[|above| + CountOnRow(path, r, j)] == row[CountOnRow(path, r, j)];
    } else {
      RowsAt(text, path, rows - 1, j);
      assert (above + row)[Rank(path, r, j)] == above[Rank(path, r, j)];
    }
  }

  /** Column k adds one occurrence of its character to its own row, unless
      it is a '.'. */
  lemma RowNextColumn(text: string, path: seq<int>, r: int, k: nat, ch: char)
    requires |text| == |path| && k < |text|
    ensures multiset(Row(text, path, r, k + 1))[ch] == multiset(Row(text, path, r, k))[ch]
      + (if path[k] == r && text[k] == ch && ch != '.' then 1 else 0)
  {
    assert Row(text, path, r, k + 1) == Row(text, path, r, k)
      + (if path[k] == r && text[k] != '.' then [text[k]] else []);
  }

  /** One more row adds its occurrences. */
  lemma RowsAddRow(text: string, path: seq<int>, r: nat, k: nat, ch: char)
    requires |text| == |path| && k <= |text|
    ensures multiset(Rows(text, path, r + 1, k))[ch]
      == multiset(Rows(text, path, r, k))[ch] + multiset(Row(text, path, r, k))[ch]
  {
    assert Rows(text, path, r + 1, k) == Rows(text, path, r, k) + Row(text, path, r, k);
  }

  /** Adding column k to the grid adds one occurrence of its character to
      the rows read, unless it is a '.' or lies below the rows read. */
  lemma {:induction false} RowsNextColumn(text: string, path: seq<int>, rows: nat, k: nat, ch: char)
    requires |text| == |path| && k < |text|
    ensures multiset(Rows(text, path, rows, k + 1))[ch] == multiset(Rows(text, path, rows, k))[ch]
      + (if 0 <= path[k] < rows && text[k] == ch && ch != '.' then 1 else 0)
  {
    if rows > 0 {
      var r := rows - 1;
      RowsNextColumn(text, path, r, k, ch);
      RowNextColumn(text, path, r, k, ch);
      RowsAddRow(text, path, r, k, ch);
      RowsAddRow(text, path, r, k + 1, ch);
    }
  }

  /** One more character of the text adds one occurrence, unless it is a
      '.'. */
  lemma WithoutDotsNext(text: string, k: nat, ch: char)
    requires k < |text|
    ensures multiset(WithoutDots(text[..k + 1]))[ch] == multiset(WithoutDots(text[..k]))[ch]
      + (if text[k] == ch && ch != '.' then 1 else 0)
  {
    var s := text[..k + 1];
    assert s[..k] == text[..k];
    assert WithoutDots(s) == WithoutDots(text[..k]) + (if text[k] != '.' then [text[k]] else []);
  }

  /** A grid of no columns reads as the empty text. */
  lemma {:induction false} RowsNoColumn(text: string, path: seq<int>, rows: nat)
    requires |text| == |path|
    ensures Rows(text, path, rows, 0) == []
  {
    if rows > 0 {
      RowsNoColumn(text, path, rows - 1);
    }
  }

  /** Each character occurs in the rows of the grid over the first k columns
      as often as in the first k characters of the text, '.' aside. */
  lemma {:induction false} RowsOccurrences(text: string, path: seq<int>, rows: nat, k: nat, ch: char)
    requires |text| == |path| && k <= |text| && InGrid(path, rows)
    ensures multiset(Rows(text, path, rows, k))[ch] == multiset(WithoutDots(text[..k]))[ch]
  {
    if k > 0 {
      RowsOccurrences(text, path, rows, k - 1, ch);
      RowsNextColumn(text, path, rows, k - 1, ch);
      WithoutDotsNext(text, k - 1, ch);
    } else {
      RowsNoColumn(text, path, rows);
    }
  }

  /** The rows of a grid the path fits hold the text's characters other
      than '.', each as often as the text. */
  lemma RowsMultiset(text: string, path: seq<int>, rows: nat)
    requires |text| == |path| && InGrid(path, rows)
    ensures multiset(Rows(text, path, rows, |text|)) == multiset(WithoutDots(text))
  {
    forall ch ensures multiset(Rows(text, path, rows, |text|))[ch] == multiset(WithoutDots(text))[ch] {
      RowsOccurrences(text, path, rows, |text|, ch);
      assert text[..|text|] == text;
    }
  }

  /** Whenever the walk fits, encryption succeeds and its output is the
      plaintext with the '.' characters dropped, rearranged: for text without
      '.' a permutation of the same length. */
  lemma EncryptedPermutes(text: string, rails: int)
    requires Fits(|text|, rails)
    ensures Encrypted(text, rails).Ok?
    ensures multiset(Encrypted(text, rails).text) == multiset(WithoutDots(text))
    ensures |Encrypted(text, rails).text| == |WithoutDots(text)|
    ensures '.' !in text ==> multiset(Encrypted(text, rails).text) == multiset(text)
  {
    FitsInGrid(|text|, rails);
    RowsMultiset(text, Path(|text|, rails), Height(rails));
    assert |multiset(Encrypted(text, rails).text)| == |multiset(WithoutDots(text))|;
  }

  // ---------------------------------------------------------------------
  // Properties of decryption

  /** Reading back along a path that lies in the grid keeps the length and
      takes column j from the ciphertext position of its cell's rank; the
      fill guard never leaves a '*'. */
  lemma SpreadChars(ciphertext: string, path: seq<int>, rows: int)
    requires InGrid(path, rows) && |ciphertext| == |path|
    ensures |Spread(ciphertext, path)| == |ciphertext|
    ensures forall j :: 0 <= j < |path| ==>
      Rank(path, path[j], j) < |ciphertext| &&
      Spread(ciphertext, path)[j] == ciphertext[Rank(path, path[j], j)]
  {
    forall j | 0 <= j < |path| ensures Rank(path, path[j], j) < |path| {
      RankInRange(path, rows, j);
    }
  }

  /** Whenever the walk fits, decryption succeeds, keeps the length and
      takes every character from the ciphertext: column j from the position
      of its marked cell's rank. */
  lemma DecryptedChars(ciphertext: string, rails: int)
    requires Fits(|ciphertext|, rails)
    ensures Decrypted(ciphertext, rails).Ok?
    ensures |Decrypted(ciphertext, rails).text| == |ciphertext|
    ensures forall j :: 0 <= j < |ciphertext| ==>
      Rank(Path(|ciphertext|, rails), RailAt(j, rails), j) < |ciphertext| &&
      Decrypted(ciphertext, rails).text[j] == ciphertext[Rank(Path(|ciphertext|, rails), RailAt(j, rails), j)]
  {
    var path := Path(|ciphertext|, rails);
    FitsInGrid(|ciphertext|, rails);
    SpreadChars(ciphertext, path, Height(rails));
    assert Decrypted(ciphertext, rails).text == Spread(ciphertext, path);
    forall j | 0 <= j < |ciphertext| ensures path[j] == RailAt(j, rails) {
    }
  }

  /** A sequence that takes its j-th element from position f[j] of c, for
      distinct positions f[j], is a permutation of c. */
  lemma {:induction false} ReindexedMultiset(s: string, c: string, f: seq<int>)
    requires |s| == |c| == |f|
    requires forall j :: 0 <= j < |f| ==> 0 <= f[j] < |c| && s[j] == c[f[j]]
    requires forall j, j' :: 0 <= j < j' < |f| ==> f[j] != f[j']
    ensures multiset(s) == multiset(c)
  {
    if |s| > 0 {
      var m, k := |s| - 1, f[|s| - 1];
      var c' := c[..k] + c[k + 1..];
      var f' := seq(m, j requires 0 <= j < m => if f[j] < k then f[j] else f[j] - 1);
      forall j | 0 <= j < m ensures 0 <= f'[j] < |c'| && s[j] == c'[f'[j]] {
        assert f[j] != k;
      }
      forall j, j' | 0 <= j < j' < m ensures f'[j] != f'[j'] {
        assert f[j] != k && f[j'] != k;
      }
      ReindexedMultiset(s[..m], c', f');
      assert c == c[..k] + [c[k]] + c[k + 1..];
      assert s == s[..m] + [s[m]];
    }
  }

  /** Over a path that lies in the grid, reading back only rearranges the
      ciphertext, whatever characters it holds. */
  lemma SpreadPermutes(ciphertext: string, path: seq<int>, rows: int)
    requires InGrid(path, rows) && |ciphertext| == |path|
    ensures multiset(Spread(ciphertext, path)) == multiset(ciphertext)
  {
    var n := |path|;
    var f := seq(n, j requires 0 <= j < n => Rank(path, path[j], j));
    SpreadChars(ciphertext, path, rows);
    forall j, j' | 0 <= j < j' < n ensures f[j] != f[j'] {
      RankInjective(path, rows, j, j');
    }
    ReindexedMultiset(Spread(ciphertext, path), ciphertext, f);
  }

  /** Whenever the walk fits, decryption succeeds and its result is a
      permutation of the ciphertext: the fill loop places every ciphertext
      character exactly once, '.' included. */
  lemma DecryptedPermutes(ciphertext: string, rails: int)
    requires Fits(|ciphertext|, rails)
    ensures Decrypted(ciphertext, rails).Ok?
    ensures multiset(Decrypted(ciphertext, rails).text) == multiset(ciphertext)
  {
    FitsInGrid(|ciphertext|, rails);
    SpreadPermutes(ciphertext, Path(|ciphertext|, rails), Height(rails));
  }

  /** A row whose characters are those of c at the ranks of its cells is
      the slice of c from the row's first rank on. */
  lemma {:induction false} RowIsSlice(p: string, path: seq<int>, c: string, r: int, k: nat)
    requires |p| == |path| && k <= |p| && '.' !in c
    requires Rank(path, r, k) <= |c|
    requires forall j :: 0 <= j < k && path[j] == r ==> Rank(path, r, j) < |c| && p[j] == c[Rank(path, r, j)]
    ensures Row(p, path, r, k) == c[Rank(path, r, 0) .. Rank(path, r, k)]
  {
    if k > 0 {
      RowIsSlice(p, path, c, r, k - 1);
      var base, prev := Rank(path, r, 0), Rank(path, r, k - 1);
      if path[k - 1] == r {
        assert c[prev] in c;
        assert c[base .. prev] + [c[prev]] == c[base .. prev + 1];
      }
    }
  }

  /** Row r of the encryption grid of the text read back is the slice of the
      ciphertext that was spread over row r. */
  lemma RowOfSpread(ciphertext: string, path: seq<int>, rows: int, r: int)
    requires InGrid(path, rows) && |ciphertext| == |path| && '.' !in ciphertext && 0 <= r
    ensures CountAbove(path, r, |path|) <= CountAbove(path, r + 1, |path|) <= |path|
    ensures |Spread(ciphertext, path)| == |path|
    ensures Row(Spread(ciphertext, path), path, r, |path|)
      == ciphertext[CountAbove(path, r, |path|) .. CountAbove(path, r + 1, |path|)]
  {
    var n := |path|;
    CountSplit(path, r, n);
    CountAboveMonotone(path, r + 1, r + 1, n);
    SpreadChars(ciphertext, path, rows);
    RowIsSlice(Spread(ciphertext, path), path, ciphertext, r, n);
  }

  /** The ciphertext positions where row r starts and ends: the marked
      cells above it and those above the next row. */
  predicate IsRowSlice(p: string, path: seq<int>, c: string, r: int)
    requires |p| == |path|
  {
    CountAbove(path, r, |path|) <= CountAbove(path, r + 1, |path|) <= |c| &&
    Row(p, path, r, |path|) == c[CountAbove(path, r, |path|) .. CountAbove(path, r + 1, |path|)]
  }

  /** Rows that are consecutive slices of c, row after row, make up a
      prefix of c. */
  lemma {:induction false} RowsArePrefix(p: string, path: seq<int>, c: string, rows: nat)
    requires |p| == |path|
    requires forall r :: 0 <= r < rows ==> IsRowSlice(p, path, c, r)
    ensures CountAbove(path, rows, |path|) <= |c|
    ensures Rows(p, path, rows, |path|) == c[..CountAbove(path, rows, |path|)]
  {
    var n := |path|;
    if rows == 0 {
      NoneAboveTop(path, n);
    } else {
      RowsArePrefix(p, path, c, rows - 1);
      assert IsRowSlice(p, path, c, rows - 1);
      var a, b := CountAbove(path, rows - 1, n), CountAbove(path, rows, n);
      assert Row(p, path, rows - 1, n) == c[a..b];
      assert Rows(p, path, rows, n) == c[..a] + c[a..b];
      assert c[..a] + c[a..b] == c[..b];
    }
  }

  // ---------------------------------------------------------------------
  // Round trips

  /** Over any path in the grid, reading back the rows of a text without '.'
      recovers the text ... */
  lemma SpreadRows(text: string, path: seq<int>, rows: nat)
    requires InGrid(path, rows) && |text| == |path| && '.' !in text
    ensures Spread(Rows(text, path, rows, |text|), path) == text
  {
    var n := |text|;
    var c := Rows(text, path, rows, n);
    RowsLength(text, path, rows, n);
    MarkedCells(path, rows, n);
    forall j | 0 <= j < n ensures Spread(c, path)[j] == text[j] {
      RowsAt(text, path, rows, j);
    }
  }

  /** ... and reading the rows of a text read back recovers the ciphertext. */
  lemma RowsSpread(ciphertext: string, path: seq<int>, rows: nat)
    requires InGrid(path, rows) && |ciphertext| == |path| && '.' !in ciphertext
    ensures Rows(Spread(ciphertext, path), path, rows, |path|) == ciphertext
  {
    var p := Spread(ciphertext, path);
    SpreadChars(ciphertext, path, rows);
    forall r | 0 <= r < rows ensures IsRowSlice(p, path, ciphertext, r) {
      RowOfSpread(ciphertext, path, rows, r);
    }
    RowsArePrefix(p, path, ciphertext, rows);
    MarkedCells(path, rows, |path|);
    assert ciphertext[..|path|] == ciphertext;
  }

  /** Decrypting the ciphertext with the same number of rails returns the
      plaintext, for every plaintext without '.' on which the walk fits (in
      particular for every rails >= 2, by FitsIff). */
  lemma DecryptedEncrypted(text: string, rails: int)
    requires '.' !in text && Fits(|text|, rails)
    ensures Encrypted(text, rails).Ok?
    ensures Decrypted(Encrypted(text, rails).text, rails) == Ok(text)
  {
    var n, path := |text|, Path(|text|, rails);
    FitsInGrid(n, rails);
    RowsLength(text, path, Height(rails), n);
    MarkedCells(path, Height(rails), n);
    SpreadRows(text, path, Height(rails));
  }

  /** Conversely, encrypting the result of a decryption gives back the
      ciphertext, and decryption only rearranges the ciphertext. */
  lemma EncryptedDecrypted(ciphertext: string, rails: int)
    requires '.' !in ciphertext && Fits(|ciphertext|, rails)
    ensures Decrypted(ciphertext, rails).Ok?
    ensures Encrypted(Decrypted(ciphertext, rails).text, rails) == Ok(ciphertext)
    ensures multiset(Decrypted(ciphertext, rails).text) == multiset(ciphertext)
  {
    var n, path := |ciphertext|, Path(|ciphertext|, rails);
    FitsInGrid(n, rails);
    SpreadChars(ciphertext, path, Height(rails));
    RowsSpread(ciphertext, path, Height(rails));
    var p := Spread(ciphertext, path);
    forall j | 0 <= j < n ensures p[j] != '.' {
      assert ciphertext[Rank(path, path[j], j)] in ciphertext;
    }
    EncryptedPermutes(p, rails);
  }

  // ---------------------------------------------------------------------
  // Special cases

  lemma {:induction false} CountAboveStraight(path: seq<int>, r: int, k: nat)
    requires k <= |path| && forall j :: 0 <= j < |path| ==> path[j] == j
    ensures CountAbove(path, r, k) == if r < 0 then 0 else if r < k then r else k
  {
    if k > 0 {
      CountAboveStraight(path, r, k - 1);
    }
  }

  lemma {:induction false} CountOnRowStraight(path: seq<int>, r: int, k: nat)
    requires k <= |path| && k <= r && forall j :: 0 <= j < |path| ==> path[j] == j
    ensures CountOnRow(path, r, k) == 0
  {
    if k > 0 {
      CountOnRowStraight(path, r, k - 1);
    }
  }

  /** Over a path that goes straight down, reading back is the identity. */
  lemma SpreadStraight(ciphertext: string, path: seq<int>)
    requires |ciphertext| == |path| && forall j :: 0 <= j < |path| ==> path[j] == j
    ensures Spread(ciphertext, path) == ciphertext
  {
    forall j | 0 <= j < |path| ensures Rank(path, path[j], j) == j {
      CountAboveStraight(path, j, |path|);
      CountOnRowStraight(path, j, j);
    }
  }

  /** With at least as many rails as characters the walk never turns:
      decryption is the identity, and so is encryption on text without '.'. */
  lemma MaxRailsIdentity(text: string, rails: int)
    requires |text| <= rails
    ensures Decrypted(text, rails) == Ok(text)
    ensures '.' !in text ==> Encrypted(text, rails) == Ok(text)
  {
    var n, path := |text|, Path(|text|, rails);
    FitsIff(n, rails);
    forall j | 0 <= j < n ensures path[j] == j {
      WalkStraight(j, rails);
    }
    SpreadStraight(text, path);
    if '.' !in text {
      FitsInGrid(n, rails);
      RowsSpread(text, path, Height(rails));
    }
  }

  /** The grid of the '.' example, read row by row. */
  lemma DotIsDroppedRows()
    ensures Rows("a.b", [0, 1, 0], 2, 3) == "ab"
  {
    assert Row("a.b", [0, 1, 0], 0, 3) == "ab";
    assert Row("a.b", [0, 1, 0], 1, 3) == "";
  }

  /** The '.' example encrypted: the walk 0, 1, 0 and the rows read. */
  lemma DotIsDroppedEncrypted(plaintext: string)
    requires plaintext == "a.b"
    ensures Encrypted(plaintext, 2) == Ok("ab")
  {
    FitsIff(3, 2);
    assert Walk(1, 2) == Cursor(1, -1);
    assert Walk(2, 2) == Cursor(0, 1);
    assert Path(3, 2) == [0, 1, 0];
    DotIsDroppedRows();
  }

  /** A '.' of the plaintext is lost: "a.b" on two rails encrypts to "ab",
      which decrypts to "ab". */
  lemma DotIsDropped(plaintext: string, ciphertext: string)
    requires plaintext == "a.b" && ciphertext == "ab"
    ensures Encrypted(plaintext, 2) == Ok(ciphertext)
    ensures Decrypted(ciphertext, 2) == Ok(ciphertext)
  {
    DotIsDroppedEncrypted(plaintext);
    MaxRailsIdentity(ciphertext, 2);
  }

  /** The walk over the twelve columns of the demonstration on three rails. */
  lemma HelloWorldPath()
    ensures Path(12, 3) == [0, 1, 2, 1, 0, 1, 2, 1, 0, 1, 2, 1]
  {
    assert Walk(1, 3) == Cursor(1, 1);
    assert Walk(2, 3) == Cursor(2, -1);
    assert Walk(3, 3) == Cursor(1, -1);
    assert Walk(4, 3) == Cursor(0, 1);
    assert Walk(5, 3) == Cursor(1, 1);
    assert Walk(6, 3) == Cursor(2, -1);
    assert Walk(7, 3) == Cursor(1, -1);
    assert Walk(8, 3) == Cursor(0, 1);
    assert Walk(9, 3) == Cursor(1, 1);
    assert Walk(10, 3) == Cursor(2, -1);
    assert Walk(11, 3) == Cursor(1, -1);
  }

  /** The three rows of the demonstration grid. */
  lemma HelloWorldRow0()
    ensures Row("Hello World!", [0, 1, 2, 1, 0, 1, 2, 1, 0, 1, 2, 1], 0, 12) == "Hor"
  {
    assert Row("Hello World!", [0, 1, 2, 1, 0, 1, 2, 1, 0, 1, 2, 1], 0, 4) == "H";
    assert Row("Hello World!", [0, 1, 2, 1, 0, 1, 2, 1, 0, 1, 2, 1], 0, 8) == "Ho";
  }

  lemma HelloWorldRow1()
    ensures Row("Hello World!", [0, 1, 2, 1, 0, 1, 2, 1, 0, 1, 2, 1], 1, 12) == "el ol!"
  {
    assert Row("Hello World!", [0, 1, 2, 1, 0, 1, 2, 1, 0, 1, 2, 1], 1, 4) == "el";
    assert Row("Hello World!", [0, 1, 2, 1, 0, 1, 2, 1, 0, 1, 2, 1], 1, 8) == "el o";
  }

  lemma HelloWorldRow2()
    ensures Row("Hello World!", [0, 1, 2, 1, 0, 1, 2, 1, 0, 1, 2, 1], 2, 12) == "lWd"
  {
    assert Row("Hello World!", [0, 1, 2, 1, 0, 1, 2, 1, 0, 1, 2, 1], 2, 4) == "l";
    assert Row("Hello World!", [0, 1, 2, 1, 0, 1, 2, 1, 0, 1, 2, 1], 2, 8) == "lW";
  }

  /** The demonstration grid read row by row. */
  lemma HelloWorldRows(t: string, p: seq<int>)
    requires t == "Hello World!" && p == [0, 1, 2, 1, 0, 1, 2, 1, 0, 1, 2, 1]
    ensures Rows(t, p, 3, 12) == "Horel ol!lWd"
  {
    HelloWorldRow0();
    HelloWorldRow1();
    HelloWorldRow2();
    assert Rows(t, p, 1, 12) == "Hor";
    assert Rows(t, p, 2, 12) == "Horel ol!";
  }

  /** The demonstration value encrypted. */
  lemma HelloWorldEncrypted(plaintext: string)
    requires plaintext == "Hello World!"
    ensures Encrypted(plaintext, 3) == Ok("Horel ol!lWd")
  {
    FitsIff(12, 3);
    HelloWorldPath();
    HelloWorldRows(plaintext, Path(12, 3));
  }

  /** The demonstration value: "Hello World!" on three rails and back. */
  lemma HelloWorld(plaintext: string, ciphertext: string)
    requires plaintext == "Hello World!" && ciphertext == "Horel ol!lWd"
    ensures Encrypted(plaintext, 3) == Ok(ciphertext)
    ensures Decrypted(ciphertext, 3) == Ok(plaintext)
  {
    HelloWorldEncrypted(plaintext);
    FitsIff(12, 3);
    assert '.' !in plaintext;
    DecryptedEncrypted(plaintext, 3);
  }
}
