/** Where text stands on the transcript and on the screen, control characters included. */
module TerminalLayout {
  import opened Common
  import opened Terminal

  // ----- runs of characters

  lemma {:induction false} PutAllJoin(d: Doc, s: string, t: string)
    requires d.Valid()
    ensures PutAll(d, s + t) == PutAll(PutAll(d, s), t)
    decreases |t|
  {
    if t == "" {
      assert s + t == s;
    } else {
      assert (s + t)[..|s + t| - 1] == s + t[..|t| - 1];
      PutAllJoin(d, s, t[..|t| - 1]);
    }
  }

  lemma PutAllOne(d: Doc, s: string, c: char)
    requires d.Valid()
    ensures PutAll(d, s + [c]) == Put(PutAll(d, s), c) && PutAll(d, [c]) == Put(d, c)
  {
    assert (s + [c])[..|s|] == s;
    assert [c][..0] == "";
    assert PutAll(d, "") == d;
  }

  // ----- lines

  /** Rows that a line takes: one at least, else as many as its characters fill, 80 to a row. */
  function RowsOf(s: string): nat {
    if s == "" then 1 else (|s| + 79) / 80
  }

  /** The line s starts at column 0 of row first, wraps after 80 characters, and is followed by blanks. */
  ghost predicate LineAt(d: Doc, first: nat, s: string) {
    && first + RowsOf(s) <= |d.rows|
    && forall r, j | first <= r < first + RowsOf(s) && 0 <= j < 80 ::
         d.At(r, j) == if 80 * (r - first) + j < |s| then s[80 * (r - first) + j] else ' '
  }

  ghost predicate BlankAt(d: Doc, row: nat) {
    forall j | 0 <= j < 80 :: d.At(row, j) == ' '
  }

  /** d' has the rows of d before row n. */
  ghost predicate SameAbove(d: Doc, d': Doc, n: nat) {
    && n <= |d.rows| && n <= |d'.rows|
    && forall r, j | 0 <= r < n && 0 <= j < 80 :: d'.At(r, j) == d.At(r, j)
  }

  lemma LineKept(d: Doc, d': Doc, n: nat, first: nat, s: string)
    requires SameAbove(d, d', n) && LineAt(d, first, s) && first + RowsOf(s) <= n
    ensures LineAt(d', first, s)
  {
  }

  /** What one plain character does: it wraps first if the row is full, and then sets one cell. */
  lemma PutPlain(d: Doc, c: char)
    requires d.Valid() && Plain([c])
    ensures var d' := Put(d, c); var row := if d.col == 80 then |d.rows| else |d.rows| - 1;
      var col := if d.col == 80 then 0 else d.col;
      && |d'.rows| == row + 1 && d'.col == col + 1
      && forall r, j | 0 <= r && 0 <= j < 80 :: d'.At(r, j) == if r == row && j == col then c else d.At(r, j)
  {
    assert [c][0] == c;
  }

  /** Plain text at the start of a blank last row is laid out as one line from there on. */
  lemma {:induction false} PlainFrom(d: Doc, s: string)
    requires d.Valid() && d.col == 0 && BlankAt(d, |d.rows| - 1) && Plain(s)
    ensures var d' := PutAll(d, s);
      && |d'.rows| == |d.rows| - 1 + RowsOf(s) && d'.col == |s| - 80 * (RowsOf(s) - 1)
      && LineAt(d', |d.rows| - 1, s) && SameAbove(d, d', |d.rows| - 1)
    decreases |s|
  {
    hide Put;
    if s == "" {
      assert LineAt(d, |d.rows| - 1, s);
    } else {
      var init, c := s[..|s| - 1], s[|s| - 1];
      assert s == init + [c];
      PlainFrom(d, init);
      PutAllOne(d, init, c);
      assert [c][0] == c;
      PutPlain(PutAll(d, init), c);
      LineGrows(PutAll(d, init), PutAll(d, s), |d.rows| - 1, init, c);
    }
  }

  lemma LineGrows(d: Doc, d': Doc, first: nat, s: string, c: char)
    requires d.Valid() && LineAt(d, first, s) && |d.rows| == first + RowsOf(s) && d.col == |s| - 80 * (RowsOf(s) - 1)
    requires var row := if d.col == 80 then |d.rows| else |d.rows| - 1;
      var col := if d.col == 80 then 0 else d.col;
      && |d'.rows| == row + 1 && d'.col == col + 1
      && forall r, j | 0 <= r && 0 <= j < 80 :: d'.At(r, j) == if r == row && j == col then c else d.At(r, j)
    ensures LineAt(d', first, s + [c]) && |d'.rows| == first + RowsOf(s + [c])
    ensures d'.col == |s + [c]| - 80 * (RowsOf(s + [c]) - 1)
  {
    var t := s + [c];
    forall r, j | first <= r < first + RowsOf(t) && 0 <= j < 80
      ensures d'.At(r, j) == if 80 * (r - first) + j < |t| then t[80 * (r - first) + j] else ' '
    {
      if r < first + RowsOf(s) {
        assert d.At(r, j) == if 80 * (r - first) + j < |s| then s[80 * (r - first) + j] else ' ';
      } else {
        assert d.At(r, j) == ' ';
      }
    }
  }

  // ----- newline

  function Join(lines: seq<string>): string
    requires lines != []
  {
    if |lines| == 1 then lines[0] else Join(lines[..|lines| - 1]) + "\n" + lines[|lines| - 1]
  }

  /** The rows that the lines before line n take. */
  function FirstRow(lines: seq<string>, n: nat): nat
    requires n <= |lines|
  {
    if n == 0 then 0 else FirstRow(lines, n - 1) + RowsOf(lines[n - 1])
  }

  lemma {:induction false} FirstRowPrefix(lines: seq<string>, n: nat, k: nat)
    requires n <= k <= |lines|
    ensures FirstRow(lines[..k], n) == FirstRow(lines, n)
  {
    if n > 0 {
      FirstRowPrefix(lines, n - 1, k);
    }
  }

  lemma {:induction false} FirstRowGrows(lines: seq<string>, n: nat, k: nat)
    requires n < k <= |lines|
    ensures FirstRow(lines, n) + RowsOf(lines[n]) <= FirstRow(lines, k)
  {
    if n + 1 < k {
      FirstRowGrows(lines, n, k - 1);
    }
  }

  lemma NewlineStartsRow(d: Doc)
    requires d.Valid()
    ensures var d' := Put(d, '\n');
      |d'.rows| == |d.rows| + 1 && d'.col == 0 && BlankAt(d', |d.rows|) && SameAbove(d, d', |d.rows|)
  {
  }

  /**
   Lines separated by newlines, on a cleared screen: each starts at column 0 of the row after those that the
   lines before it take, and the cursor stands behind the last one.
   */
  lemma {:induction false} LinesLayout(lines: seq<string>)
    requires lines != [] && forall n | 0 <= n < |lines| :: Plain(lines[n])
    ensures var d := PutAll(Empty(), Join(lines)); var last := lines[|lines| - 1];
      && |d.rows| == FirstRow(lines, |lines|) && d.col == |last| - 80 * (RowsOf(last) - 1)
      && forall n | 0 <= n < |lines| :: LineAt(d, FirstRow(lines, n), lines[n])
    decreases |lines|
  {
    if |lines| == 1 {
      PlainFrom(Empty(), lines[0]);
      assert FirstRow(lines, 1) == FirstRow(lines, 0) + RowsOf(lines[0]);
    } else {
      var k := |lines| - 1;
      var init, last := lines[..k], lines[k];
      LinesLayout(init);
      var d0 := PutAll(Empty(), Join(init));
      var d1 := Put(d0, '\n');
      PutAllOne(Empty(), Join(init), '\n');
      PutAllJoin(Empty(), Join(init) + "\n", last);
      NewlineStartsRow(d0);
      PlainFrom(d1, last);
      FirstRowPrefix(lines, k, k);
      NextLine(lines, d0, d1, PutAll(d1, last));
    }
  }

  lemma NextLine(lines: seq<string>, d0: Doc, d1: Doc, d: Doc)
    requires lines != [] && var k := |lines| - 1;
      && |d0.rows| == FirstRow(lines[..k], k) && FirstRow(lines[..k], k) == FirstRow(lines, k)
      && (forall n | 0 <= n < k :: LineAt(d0, FirstRow(lines[..k], n), lines[..k][n]))
      && SameAbove(d0, d1, |d0.rows|) && |d1.rows| == |d0.rows| + 1
      && SameAbove(d1, d, |d0.rows|) && LineAt(d, |d0.rows|, lines[k])
    ensures forall n | 0 <= n < |lines| :: LineAt(d, FirstRow(lines, n), lines[n])
  {
    hide LineAt, SameAbove, FirstRow, RowsOf;
    var k := |lines| - 1;
    AboveTrans(d0, d1, d, |d0.rows|);
    forall n | 0 <= n < k
      ensures LineAt(d, FirstRow(lines, n), lines[n])
    {
      FirstRowPrefix(lines, n, k);
      FirstRowGrows(lines, n, k);
      assert lines[..k][n] == lines[n];
      LineKept(d0, d, |d0.rows|, FirstRow(lines, n), lines[n]);
    }
  }

  lemma AboveTrans(d0: Doc, d1: Doc, d2: Doc, n: nat)
    requires SameAbove(d0, d1, n) && SameAbove(d1, d2, n)
    ensures SameAbove(d0, d2, n)
  {
  }

  // ----- carriage return

  /** A carriage return keeps every row and goes to column 0; what follows is written over the row. */
  lemma {:induction false} Overprint(d: Doc, s: string)
    requires d.Valid() && Plain(s) && |s| <= 80
    ensures var d' := PutAll(d, "\r" + s);
      && |d'.rows| == |d.rows| && d'.col == |s|
      && forall r, j | 0 <= r && 0 <= j < 80 ::
           d'.At(r, j) == if r == |d.rows| - 1 && j < |s| then s[j] else d.At(r, j)
    decreases |s|
  {
    if s == "" {
      PutAllOne(d, "", '\r');
      assert "\r" + s == "\r";
    } else {
      var init, c := s[..|s| - 1], s[|s| - 1];
      assert "\r" + s == ("\r" + init) + [c];
      Overprint(d, init);
      PutAllOne(d, "\r" + init, c);
      assert [c][0] == c;
      PutPlain(PutAll(d, "\r" + init), c);
    }
  }

  // ----- backspace

  /** At column 0 a backspace does nothing; elsewhere it steps back one column and blanks that one cell. */
  lemma BackspaceBlanks(d: Doc)
    requires d.Valid()
    ensures var d' := Put(d, 8 as char);
      && |d'.rows| == |d.rows|
      && (d.col == 0 ==> d' == d)
      && (d.col != 0 ==> d'.col == d.col - 1)
      && forall r, j | 0 <= r && 0 <= j < 80 ::
           d'.At(r, j) == if d.col != 0 && r == |d.rows| - 1 && j == d.col - 1 then ' ' else d.At(r, j)
  {
  }

  /** After a plain character it restores the position and blanks that character, but does not undo a wrap. */
  lemma BackspaceUndoes(d: Doc, c: char)
    requires d.Valid() && Plain([c])
    ensures var d' := PutAll(d, [c, 8 as char]);
      && (d.col < 80 ==> |d'.rows| == |d.rows| && d'.col == d.col)
      && (d.col == 80 ==> |d'.rows| == |d.rows| + 1 && d'.col == 0)
      && forall r, j | 0 <= r && 0 <= j < 80 ::
           d'.At(r, j) == if d.col < 80 && r == |d.rows| - 1 && j == d.col then ' ' else d.At(r, j)
  {
    assert [c, 8 as char] == [c] + [8 as char];
    PutAllOne(d, "", c);
    PutAllOne(d, [c], 8 as char);
    PutPlain(d, c);
    BackspaceBlanks(Put(d, c));
    hide Put;
  }

  // ----- the screen

  /** The 80 by 25 buffer shows the last 25 rows, white on black; rows not reached are blank. */
  lemma ScreenShows(screen: Screen)
    requires screen.Valid()
    ensures screen.term.Length == 2000
    ensures var top := if |screen.doc.rows| <= 25 then 0 else |screen.doc.rows| - 25;
      && screen.termRow == |screen.doc.rows| - 1 - top < 25 && screen.termCol == screen.doc.col <= 80
      && forall k | 0 <= k < 2000 ::
           screen.term[k] ==
           Cell(if top + k / 80 < |screen.doc.rows| then screen.doc.rows[top + k / 80][k % 80] else ' ', 15, 0)
  {
    assert forall k | 0 <= k < 2000 :: screen.term[k] == Shown(screen.doc, k);
  }
}
