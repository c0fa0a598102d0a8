/**
 The text terminal of kernel/terminal.c: an 80 by 25 buffer that always shows the last rows of an unbounded
 transcript. Scrolling copies overlapping memory with the ascending memcpy of stdlib/mem.c.
 */
module Terminal {
  import opened Common

  const VGA_WIDTH: nat := 80
  const VGA_HEIGHT: nat := 25
  const BLACK: nat := 0
  const WHITE: nat := 15

  /** vga_entry_t */
  datatype Cell = Cell(c: char, fg: nat, bg: nat)

  // ----- the transcript

  /** Rows of 80 characters, the last one being written, and the column of the next character. */
  datatype Doc = Doc(rows: seq<seq<char>>, col: nat) {
    ghost predicate Valid() {
      rows != [] && (forall r | 0 <= r < |rows| :: |rows[r]| == VGA_WIDTH) && col <= VGA_WIDTH
    }

    function Last(): nat
      requires rows != []
    {
      |rows| - 1
    }

    /** The first row on the screen. */
    function Base(): nat {
      if |rows| <= VGA_HEIGHT then 0 else |rows| - VGA_HEIGHT
    }

    /** The character at row r and column j; rows not reached are blank. */
    function At(r: nat, j: nat): char {
      if r < |rows| && j < |rows[r]| then rows[r][j] else ' '
    }
  }

  function BlankRow(): seq<char> {
    seq(VGA_WIDTH, _ => ' ')
  }

  function Empty(): (d: Doc)
    ensures d.Valid()
  {
    Doc([BlankRow()], 0)
  }

  function NewRow(d: Doc): (r: Doc)
    requires d.Valid()
    ensures r.Valid() && r.col == 0
  {
    Doc(d.rows + [BlankRow()], 0)
  }

  function SetChar(d: Doc, j: nat, c: char): (r: Doc)
    requires d.Valid() && j < VGA_WIDTH
    ensures r.Valid() && r.col == d.col && |r.rows| == |d.rows|
  {
    Doc(d.rows[d.Last() := d.rows[d.Last()][j := c]], d.col)
  }

  /** Typing one character at the end of the transcript. */
  function Put(d: Doc, c: char): (r: Doc)
    requires d.Valid()
    ensures r.Valid()
  {
    if c == '\r' then Doc(d.rows, 0)
    else if c == BACKSPACE then
      if d.col == 0 then d else Doc(SetChar(d, d.col - 1, ' ').rows, d.col - 1)
    else if c == '\n' then NewRow(d)
    else
      var e := if d.col == VGA_WIDTH then NewRow(d) else d;
      Doc(SetChar(e, e.col, c).rows, e.col + 1)
  }

  function PutAll(d: Doc, s: string): (r: Doc)
    requires d.Valid()
    ensures r.Valid()
  {
    if s == "" then d else Put(PutAll(d, s[..|s| - 1]), s[|s| - 1])
  }

  predicate Plain(s: string) {
    forall i | 0 <= i < |s| :: s[i] != '\n' && s[i] != '\r' && s[i] != BACKSPACE
  }

  /** Text without control characters is laid out in rows of 80: character p stands at row p / 80, column p % 80. */
  lemma {:induction false} PlainLayout(s: string)
    requires Plain(s)
    ensures var d := PutAll(Empty(), s);
      && |d.rows| == (if s == "" then 1 else (|s| + VGA_WIDTH - 1) / VGA_WIDTH)
      && VGA_WIDTH * d.Last() + d.col == |s|
      && forall r, j | 0 <= r < |d.rows| && 0 <= j < VGA_WIDTH ::
           d.At(r, j) == if VGA_WIDTH * r + j < |s| then s[VGA_WIDTH * r + j] else ' '
    decreases |s|
  {
    if s != "" {
      var init, c := s[..|s| - 1], s[|s| - 1];
      PlainLayout(init);
      var d0 := PutAll(Empty(), init);
      var e := if d0.col == VGA_WIDTH then NewRow(d0) else d0;
      var d := PutAll(Empty(), s);
      assert VGA_WIDTH * e.Last() + e.col == |init|;
      forall r, j | 0 <= r < |d.rows| && 0 <= j < VGA_WIDTH
        ensures d.At(r, j) == if VGA_WIDTH * r + j < |s| then s[VGA_WIDTH * r + j] else ' '
      {
        assert r < |d0.rows| ==> d0.At(r, j) == if VGA_WIDTH * r + j < |init| then init[VGA_WIDTH * r + j] else ' ';
        assert d.At(r, j) == if r == e.Last() && j == e.col then c else e.At(r, j);
      }
    }
  }

  // ----- memcpy

  /** The remainder of i divided by gap. */
  function Within(i: nat, gap: nat): (r: nat)
    requires 0 < gap
    ensures r < gap && r <= i
  {
    if i < gap then i else Within(i - gap, gap)
  }

  /**
   What an ascending copy of n elements leaves at offset i of the destination. Moving towards lower
   addresses it is a true copy however the ranges overlap; towards higher ones it repeats its first
   dest - src elements.
   */
  function Origin(dest: nat, src: nat, i: nat): nat {
    if dest <= src then i else Within(i, dest - src)
  }

  method Memcpy<T>(a: array<T>, dest: nat, src: nat, n: nat)
    requires dest + n <= a.Length && src + n <= a.Length
    modifies a
    ensures forall i | 0 <= i < n :: a[dest + i] == old(a[src + Origin(dest, src, i)])
    ensures forall k | 0 <= k < a.Length && !(dest <= k < dest + n) :: a[k] == old(a[k])
  {
    var i := 0;
    while i < n
      invariant 0 <= i <= n
      invariant forall j | 0 <= j < i :: a[dest + j] == old(a[src + Origin(dest, src, j)])
      invariant forall k | 0 <= k < a.Length && !(dest <= k < dest + i) :: a[k] == old(a[k])
    {
      assert a[src + i] == old(a[src + Origin(dest, src, i)]) by {
        if dest <= src + i < dest + i {
          assert a[dest + (src + i - dest)] == old(a[src + Origin(dest, src, src + i - dest)]);
        }
      }
      a[dest + i] := a[src + i];
      i := i + 1;
    }
  }

  /** The copy is faithful for every content exactly when the destination does not start inside the source. */
  lemma CopyIsFaithful(dest: nat, src: nat, n: nat)
    ensures (forall i: nat | i < n :: Origin(dest, src, i) == i) <==> (dest <= src || src + n <= dest)
  {
    if src < dest < src + n {
      assert Origin(dest, src, dest - src) == 0;
    }
  }

  // ----- the screen

  function CellOf(c: char): Cell {
    Cell(c, WHITE, BLACK)
  }

  /** Cell k of the screen that shows d. */
  function Shown(d: Doc, k: nat): Cell {
    CellOf(d.At(d.Base() + k / VGA_WIDTH, k % VGA_WIDTH))
  }

  lemma BlankBelow(d: Doc, r: nat, j: nat)
    requires d.Valid()
    ensures NewRow(d).At(r, j) == d.At(r, j)
  {
  }

  class Screen {
    const term: array<Cell>
    var termCol: nat
    var termRow: nat
    ghost var doc: Doc

    /** The buffer shows the last rows of the transcript, and the cursor stands at its end. */
    ghost predicate Valid()
      reads this, term
    {
      && term.Length == VGA_WIDTH * VGA_HEIGHT && doc.Valid()
      && termRow == doc.Last() - doc.Base() && termCol == doc.col
      && forall k | 0 <= k < term.Length :: term[k] == Shown(doc, k)
    }

    /** term_init: the buffer is the VGA memory, whatever it holds. */
    constructor (buffer: array<Cell>)
      requires buffer.Length == VGA_WIDTH * VGA_HEIGHT
      modifies buffer
      ensures Valid() && doc == Empty() && term == buffer
    {
      term, termCol, termRow, doc := buffer, 0, 0, Empty();
      new;
      TermClear();
    }

    method TermClear()
      requires term.Length == VGA_WIDTH * VGA_HEIGHT
      modifies this, term
      ensures Valid() && doc == Empty()
      ensures termCol == 0 && termRow == 0 && forall k | 0 <= k < 2000 :: term[k] == Cell(' ', 15, 0)
    {
      var i := 0;
      while i < VGA_WIDTH * VGA_HEIGHT
        invariant 0 <= i <= VGA_WIDTH * VGA_HEIGHT
        invariant forall k | 0 <= k < i :: term[k] == CellOf(' ')
      {
        term[i] := term[i].(c := ' ');
        term[i] := term[i].(bg := BLACK);
        term[i] := term[i].(fg := WHITE);
        i := i + 1;
      }
      termCol, termRow := 0, 0;
      doc := Empty();
    }

    /** The cursor has moved down; the buffer still shows the rows it showed before. */
    ghost predicate Advanced()
      reads this, term
    {
      && term.Length == VGA_WIDTH * VGA_HEIGHT && doc.Valid() && termCol == doc.col
      && 1 < |doc.rows| && doc.rows[doc.Last()] == BlankRow()
      && termRow == (if |doc.rows| <= VGA_HEIGHT then doc.Last() else VGA_HEIGHT)
      && forall k | 0 <= k < term.Length ::
           term[k] == CellOf(doc.At(doc.Last() - termRow + k / VGA_WIDTH, k % VGA_WIDTH))
    }

    /** term_col = 0; term_row++ */
    method NextRow()
      requires Valid()
      modifies this`termCol, this`termRow, this`doc
      ensures Advanced() && doc == NewRow(old(doc))
      ensures termRow < VGA_HEIGHT ==> Valid()
    {
      ghost var d := doc;
      termCol := 0;
      termRow := termRow + 1;
      doc := NewRow(doc);
      forall k | 0 <= k < term.Length
        ensures term[k] == CellOf(doc.At(doc.Last() - termRow + k / VGA_WIDTH, k % VGA_WIDTH))
      {
        assert term[k] == Shown(d, k);
        BlankBelow(d, d.Base() + k / VGA_WIDTH, k % VGA_WIDTH);
      }
    }

    /** The part of term_putchar that makes room when the cursor has left the last row. */
    method Scroll()
      requires Advanced() && termRow == VGA_HEIGHT
      modifies this`termRow, term
      ensures Valid()
    {
      ghost var before := term[..];
      Memcpy(term, 0, VGA_WIDTH, VGA_WIDTH * (VGA_HEIGHT - 1));
      forall k | 0 <= k < VGA_WIDTH * (VGA_HEIGHT - 1)
        ensures term[k] == before[VGA_WIDTH + k]
      {
        assert term[0 + k] == before[VGA_WIDTH + Origin(0, VGA_WIDTH, k)];
      }
      termRow := termRow - 1;
      var i := 0;
      while i < VGA_WIDTH
        invariant 0 <= i <= VGA_WIDTH && termRow == VGA_HEIGHT - 1
        invariant forall k | 0 <= k < VGA_WIDTH * (VGA_HEIGHT - 1) :: term[k] == before[VGA_WIDTH + k]
        invariant forall k | VGA_WIDTH * (VGA_HEIGHT - 1) <= k < VGA_WIDTH * (VGA_HEIGHT - 1) + i ::
                    term[k] == CellOf(' ')
      {
        var index := i + termRow * VGA_WIDTH;
        term[index] := term[index].(c := ' ');
        term[index] := term[index].(fg := WHITE);
        term[index] := term[index].(bg := BLACK);
        i := i + 1;
      }
    }

    method TermPutchar(c: char)
      requires Valid()
      modifies this, term
      ensures Valid() && doc == Put(old(doc), c)
    {
      if c == '\r' {
        termCol := 0;
        doc := Put(doc, c);
        return;
      } else if c == BACKSPACE {
        if termCol > 0 {
          Erase();
        }
        return;
      }
      if c == '\n' {
        NextRow();
      }
      if termCol == VGA_WIDTH {
        NextRow();
      }
      if termRow == VGA_HEIGHT {
        Scroll();
      }
      if c != '\n' {
        WriteAtCursor(c);
      }
    }

    /** The part of term_putchar that steps back and blanks a character. */
    method Erase()
      requires Valid() && 0 < termCol
      modifies this`termCol, this`doc, term
      ensures Valid() && doc == Put(old(doc), BACKSPACE)
    {
      termCol := termCol - 1;
      var index := termRow * VGA_WIDTH + termCol;
      term[index] := term[index].(c := ' ');
      doc := Put(doc, BACKSPACE);
    }

    /** The part of term_putchar that writes a character at the cursor. */
    method WriteAtCursor(c: char)
      requires Valid() && termCol < VGA_WIDTH
      modifies this`termCol, this`doc, term
      ensures Valid() && doc == Doc(SetChar(old(doc), old(doc).col, c).rows, old(doc).col + 1)
    {
      var index := termCol + termRow * VGA_WIDTH;
      term[index] := term[index].(c := c);
      term[index] := term[index].(fg := WHITE);
      term[index] := term[index].(bg := BLACK);
      termCol := termCol + 1;
      doc := Doc(SetChar(doc, doc.col, c).rows, doc.col + 1);
    }

    /** Characters one after another, as SYS_write prints a buffer. */
    method WriteAll(s: string)
      requires Valid()
      modifies this, term
      ensures Valid() && doc == PutAll(old(doc), s)
      ensures termRow < VGA_HEIGHT && termCol <= VGA_WIDTH
    {
      var i := 0;
      while i < |s|
        invariant 0 <= i <= |s| && Valid() && doc == PutAll(old(doc), s[..i])
      {
        assert s[..i + 1][..i] == s[..i];
        TermPutchar(s[i]);
        i := i + 1;
      }
      assert s[..i] == s;
    }
  }
}
