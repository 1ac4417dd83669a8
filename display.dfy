/**
 The LED matrix drive of the board: a fixed 5x5 bitmap, five row lines and
 five column lines, and one multiplexed render pass that pulses every lit
 cell in row-major order.

 A row line lights its LEDs when High, a column line when Low, so a cell
 (r, c) glows exactly while row r is High and column c is Low. At rest all
 rows are Low and all columns High.
 */
module Display {

  /** Number of rows and of columns of the matrix. */
  const Size: nat := 5

  /** Output level of one GPIO line. */
  datatype Level = Low | High

  /** One of the ten output lines, by index into the row or the column array. */
  datatype Line = Row(index: nat) | Col(index: nat)

  /** One `set_high`/`set_low` call on a line, as recorded in a pass's trace. */
  datatype Write = Write(line: Line, level: Level)

  /** A grid position. */
  datatype Cell = Cell(row: nat, col: nat)

  /** The levels of all row lines and all column lines. */
  datatype Lines = Lines(rows: seq<Level>, cols: seq<Level>)

  /** The compiled-in bitmap; 1 marks a lit cell. */
  const Heart: seq<seq<int>> :=
    [ [0, 1, 0, 1, 0],
      [1, 0, 1, 0, 1],
      [1, 0, 0, 0, 1],
      [0, 1, 0, 1, 0],
      [0, 0, 1, 0, 0] ]

  /** A bitmap of the fixed shape: Size rows of Size cells each. */
  predicate IsGrid(b: seq<seq<int>>) {
    |b| == Size && forall r :: 0 <= r < |b| ==> |b[r]| == Size
  }

  predicate InGrid(p: Cell) {
    p.row < Size && p.col < Size
  }

  /** Position of a cell in row-major visiting order. */
  function Index(p: Cell): nat {
    p.row * Size + p.col
  }

  /** The configured initial levels: every row Low, every column High. */
  function Rest(): (s: Lines)
    ensures |s.rows| == Size && |s.cols| == Size
  {
    Lines(seq(Size, _ => Low), seq(Size, _ => High))
  }

  predicate AtRest(s: Lines) {
    s == Rest()
  }

  /** Cell (r, c) is energised: its row drives High and its column Low. */
  predicate Lit(s: Lines, r: nat, c: nat) {
    r < |s.rows| && c < |s.cols| && s.rows[r] == High && s.cols[c] == Low
  }

  /** The effect of one write on the line levels (a write to a line that does not exist changes nothing). */
  function Apply(s: Lines, w: Write): Lines {
    match w.line
    case Row(i) => if i < |s.rows| then s.(rows := s.rows[i := w.level]) else s
    case Col(j) => if j < |s.cols| then s.(cols := s.cols[j := w.level]) else s
  }

  /** The effect of a sequence of writes, issued first to last. */
  function ApplyAll(s: Lines, ws: seq<Write>): Lines
    decreases |ws|
  {
    if ws == [] then s else Apply(ApplyAll(s, ws[..|ws| - 1]), ws[|ws| - 1])
  }

  /** The four writes that flash one cell: row High, column Low, row Low, column High. */
  function Pulse(p: Cell): seq<Write> {
    [Write(Row(p.row), High), Write(Col(p.col), Low), Write(Row(p.row), Low), Write(Col(p.col), High)]
  }

  /** The pulses of the given cells, one after the other. */
  function Pulses(cells: seq<Cell>): seq<Write>
    decreases |cells|
  {
    if cells == [] then [] else Pulses(cells[..|cells| - 1]) + Pulse(cells[|cells| - 1])
  }

  /**
   The lit cells that a pass visits before reaching position (r, c), in the
   order it visits them; (r, Size) and (r + 1, 0) name the same point.
   */
  function LitCells(b: seq<seq<int>>, r: nat, c: nat): seq<Cell>
    requires IsGrid(b) && r <= Size && c <= Size && (r < Size || c == 0)
    decreases r, c
  {
    if c > 0 then
      LitCells(b, r, c - 1) + (if b[r][c - 1] == 1 then [Cell(r, c - 1)] else [])
    else if r > 0 then
      LitCells(b, r - 1, Size)
    else
      []
  }

  /** The whole trace of one pass over b. */
  function PassTrace(b: seq<seq<int>>): seq<Write>
    requires IsGrid(b)
  {
    Pulses(LitCells(b, Size, 0))
  }

  /** Issuing a + b is issuing a, then b. */
  lemma {:induction false} ApplyAllAppend(s: Lines, a: seq<Write>, b: seq<Write>)
    ensures ApplyAll(s, a + b) == ApplyAll(ApplyAll(s, a), b)
    decreases |b|
  {
    if b != [] {
      assert (a + b)[..|a + b| - 1] == a + b[..|b| - 1];
      ApplyAllAppend(s, a, b[..|b| - 1]);
    } else {
      assert a + b == a;
    }
  }

  /** Four writes in a row, one at a time. */
  lemma ApplyAllFour(s: Lines, w: seq<Write>)
    requires |w| == 4
    ensures ApplyAll(s, w) == Apply(Apply(Apply(Apply(s, w[0]), w[1]), w[2]), w[3])
  {
    var w1, w2, w3 := w[..1], w[..2], w[..3];
    assert w1[..0] == [] && w2[..1] == w1 && w3[..2] == w2;
    assert ApplyAll(s, w1) == Apply(s, w[0]);
    assert ApplyAll(s, w2) == Apply(ApplyAll(s, w1), w[1]);
    assert ApplyAll(s, w3) == Apply(ApplyAll(s, w2), w[2]);
  }

  /** A pulse leaves its row Low and its column High, whatever they were, and touches no other line. */
  lemma PulseEffect(s: Lines, p: Cell)
    requires p.row < |s.rows| && p.col < |s.cols|
    ensures ApplyAll(s, Pulse(p)) == s.(rows := s.rows[p.row := Low], cols := s.cols[p.col := High])
  {
    var w := Pulse(p);
    ApplyAllFour(s, w);
    var s1 := Apply(s, w[0]);
    assert s1 == s.(rows := s.rows[p.row := High]);
    var s2 := Apply(s1, w[1]);
    assert s2 == s1.(cols := s.cols[p.col := Low]);
    var s3 := Apply(s2, w[2]);
    assert s3.rows == s.rows[p.row := Low];
    assert s3 == s2.(rows := s.rows[p.row := Low]);
  }

  /** The cells a pass pulses before (r, c) are exactly the lit cells that come before (r, c) in row-major order. */
  lemma {:induction false} LitCellsExact(b: seq<seq<int>>, r: nat, c: nat, p: Cell)
    requires IsGrid(b) && r <= Size && c <= Size && (r < Size || c == 0)
    ensures p in LitCells(b, r, c) <==> InGrid(p) && b[p.row][p.col] == 1 && Index(p) < r * Size + c
    decreases r, c
  {
    if c > 0 {
      LitCellsExact(b, r, c - 1, p);
    } else if r > 0 {
      LitCellsExact(b, r - 1, Size, p);
    }
  }

  /** Every cell a pass pulses is on the grid. */
  lemma LitCellsInGrid(b: seq<seq<int>>, r: nat, c: nat)
    requires IsGrid(b) && r <= Size && c <= Size && (r < Size || c == 0)
    ensures forall i :: 0 <= i < |LitCells(b, r, c)| ==> InGrid(LitCells(b, r, c)[i])
  {
    forall i | 0 <= i < |LitCells(b, r, c)| ensures InGrid(LitCells(b, r, c)[i]) {
      LitCellsExact(b, r, c, LitCells(b, r, c)[i]);
    }
  }

  /** The cells a pass pulses come in strictly increasing row-major order, so no cell is pulsed twice. */
  lemma {:induction false} LitCellsRowMajor(b: seq<seq<int>>, r: nat, c: nat)
    requires IsGrid(b) && r <= Size && c <= Size && (r < Size || c == 0)
    ensures forall i, j :: 0 <= i < j < |LitCells(b, r, c)| ==> Index(LitCells(b, r, c)[i]) < Index(LitCells(b, r, c)[j])
    decreases r, c
  {
    if c > 0 {
      var cells := LitCells(b, r, c - 1);
      LitCellsRowMajor(b, r, c - 1);
      forall i | 0 <= i < |cells|
        ensures Index(cells[i]) < r * Size + c - 1
      {
        LitCellsExact(b, r, c - 1, cells[i]);
      }
    } else if r > 0 {
      LitCellsRowMajor(b, r - 1, Size);
    }
  }

  /** Pulsing a + b is pulsing a, then b. */
  lemma {:induction false} PulsesAppend(a: seq<Cell>, b: seq<Cell>)
    ensures Pulses(a + b) == Pulses(a) + Pulses(b)
    decreases |b|
  {
    if b == [] {
      assert a + b == a;
    } else {
      assert (a + b)[..|a + b| - 1] == a + b[..|b| - 1];
      PulsesAppend(a, b[..|b| - 1]);
    }
  }

  /** Every cell contributes exactly four writes. */
  lemma {:induction false} PulsesLength(cells: seq<Cell>)
    ensures |Pulses(cells)| == 4 * |cells|
    decreases |cells|
  {
    if cells != [] {
      PulsesLength(cells[..|cells| - 1]);
    }
  }

  /**
   The first 4 * q + m writes of the pulses of cells (q < |cells|, m <= 4) are
   the pulses of the first q cells and the first m writes of the pulse of cell q.
   */
  lemma PulsesPrefix(cells: seq<Cell>, q: nat, m: nat)
    requires q < |cells| && m <= 4
    ensures |Pulses(cells)| == 4 * |cells|
    ensures Pulses(cells)[..4 * q + m] == Pulses(cells[..q]) + Pulse(cells[q])[..m]
  {
    var tail := cells[q + 1..];
    assert cells == cells[..q] + [cells[q]] + tail;
    PulsesAppend(cells[..q] + [cells[q]], tail);
    PulsesAppend(cells[..q], [cells[q]]);
    assert Pulses([cells[q]]) == Pulse(cells[q]) by { assert [cells[q]][..0] == []; }
    PulsesLength(cells);
    PulsesLength(cells[..q]);
  }

  /** The pulse of cell i of a trace occupies writes 4 * i to 4 * i + 3. */
  lemma PulsesAt(cells: seq<Cell>, i: nat)
    requires i < |cells|
    ensures |Pulses(cells)| == 4 * |cells|
    ensures Pulses(cells)[4 * i..4 * i + 4] == Pulse(cells[i])
  {
    PulsesPrefix(cells, i, 0);
    PulsesPrefix(cells, i, 4);
    PulsesLength(cells[..i]);
    assert Pulse(cells[i])[..0] == [] && Pulse(cells[i])[..4] == Pulse(cells[i]);
  }

  /**
   A pass over b pulses every cell whose bitmap value is 1, and only those,
   in row-major order.
   */
  lemma PassVisitsLitCells(b: seq<seq<int>>)
    requires IsGrid(b)
    ensures forall p :: p in LitCells(b, Size, 0) <==> InGrid(p) && b[p.row][p.col] == 1
    ensures forall i, j :: 0 <= i < j < |LitCells(b, Size, 0)| ==>
      Index(LitCells(b, Size, 0)[i]) < Index(LitCells(b, Size, 0)[j])
  {
    forall p ensures p in LitCells(b, Size, 0) <==> InGrid(p) && b[p.row][p.col] == 1 {
      LitCellsExact(b, Size, 0, p);
    }
    LitCellsRowMajor(b, Size, 0);
  }

  /**
   The trace of a pass is four writes per pulsed cell: row High, column Low,
   row Low, column High, all on that cell's own two lines.
   */
  lemma PassPulseWrites(b: seq<seq<int>>, i: nat)
    requires IsGrid(b) && i < |LitCells(b, Size, 0)|
    ensures |PassTrace(b)| == 4 * |LitCells(b, Size, 0)|
    ensures var p := LitCells(b, Size, 0)[i];
      && PassTrace(b)[4 * i] == Write(Row(p.row), High)
      && PassTrace(b)[4 * i + 1] == Write(Col(p.col), Low)
      && PassTrace(b)[4 * i + 2] == Write(Row(p.row), Low)
      && PassTrace(b)[4 * i + 3] == Write(Col(p.col), High)
  {
    var cells := LitCells(b, Size, 0);
    PulsesAt(cells, i);
    var block := PassTrace(b)[4 * i..4 * i + 4];
    assert block[0] == PassTrace(b)[4 * i] && block[1] == PassTrace(b)[4 * i + 1];
    assert block[2] == PassTrace(b)[4 * i + 2] && block[3] == PassTrace(b)[4 * i + 3];
  }

  /** The heart bitmap lights ten cells, so one pass over it is ten pulses, 40 line writes. */
  lemma HeartPass()
    ensures IsGrid(Heart)
    ensures LitCells(Heart, Size, 0) ==
      [Cell(0, 1), Cell(0, 3), Cell(1, 0), Cell(1, 2), Cell(1, 4), Cell(2, 0), Cell(2, 4), Cell(3, 1), Cell(3, 3), Cell(4, 2)]
    ensures |PassTrace(Heart)| == 40
  {
    assert LitCells(Heart, 0, Size) == [Cell(0, 1), Cell(0, 3)];
    assert LitCells(Heart, 1, Size) == [Cell(0, 1), Cell(0, 3), Cell(1, 0), Cell(1, 2), Cell(1, 4)];
    assert LitCells(Heart, 2, Size) == [Cell(0, 1), Cell(0, 3), Cell(1, 0), Cell(1, 2), Cell(1, 4), Cell(2, 0), Cell(2, 4)];
    assert LitCells(Heart, 3, Size) ==
      [Cell(0, 1), Cell(0, 3), Cell(1, 0), Cell(1, 2), Cell(1, 4), Cell(2, 0), Cell(2, 4), Cell(3, 1), Cell(3, 3)];
    PulsesLength(LitCells(Heart, Size, 0));
  }

  /** From the rest levels, any sequence of in-grid pulses ends at the rest levels again. */
  lemma {:induction false} PulsesKeepRest(cells: seq<Cell>)
    requires forall i :: 0 <= i < |cells| ==> InGrid(cells[i])
    ensures AtRest(ApplyAll(Rest(), Pulses(cells)))
    decreases |cells|
  {
    if cells != [] {
      var init, last := cells[..|cells| - 1], cells[|cells| - 1];
      PulsesKeepRest(init);
      ApplyAllAppend(Rest(), Pulses(init), Pulse(last));
      PulseEffect(Rest(), last);
      assert Rest().rows[last.row := Low] == Rest().rows;
      assert Rest().cols[last.col := High] == Rest().cols;
    }
  }

  /**
   Starting from the configured levels (rows Low, columns High), the lines are
   back at those levels after every pulse of a pass, so after the whole pass.
   */
  lemma PassRestoresRest(b: seq<seq<int>>)
    requires IsGrid(b)
    ensures AtRest(ApplyAll(Rest(), PassTrace(b)))
    ensures |PassTrace(b)| == 4 * |LitCells(b, Size, 0)|
    ensures forall q :: 0 <= q <= |LitCells(b, Size, 0)| ==> AtRest(ApplyAll(Rest(), PassTrace(b)[..4 * q]))
  {
    var cells := LitCells(b, Size, 0);
    PulsesLength(cells);
    forall q | 0 <= q <= |cells|
      ensures AtRest(ApplyAll(Rest(), PassTrace(b)[..4 * q]))
    {
      RestAfterPulses(b, q);
    }
    assert PassTrace(b)[..4 * |cells|] == PassTrace(b);
  }

  /** From rest, the lines are at rest again once the first q pulses of a pass are done. */
  lemma RestAfterPulses(b: seq<seq<int>>, q: nat)
    requires IsGrid(b) && q <= |LitCells(b, Size, 0)|
    ensures |PassTrace(b)| == 4 * |LitCells(b, Size, 0)|
    ensures AtRest(ApplyAll(Rest(), PassTrace(b)[..4 * q]))
  {
    var cells := LitCells(b, Size, 0);
    PulsesLength(cells);
    if q < |cells| {
      PulsesPrefix(cells, q, 0);
      assert Pulse(cells[q])[..0] == [];
      assert PassTrace(b)[..4 * q] == Pulses(cells[..q]) + [];
      assert Pulses(cells[..q]) + [] == Pulses(cells[..q]);
    } else {
      assert PassTrace(b)[..4 * q] == PassTrace(b);
      assert cells[..q] == cells;
    }
    LitCellsInGrid(b, Size, 0);
    assert forall i :: 0 <= i < |cells[..q]| ==> cells[..q][i] == cells[i];
    PulsesKeepRest(cells[..q]);
  }

  /** Lines after the first m writes of a pulse of p from rest: p glows after exactly two, nothing otherwise. */
  lemma PulseLightsOneCell(p: Cell, m: nat, r: nat, c: nat)
    requires InGrid(p) && m <= 4
    ensures Lit(ApplyAll(Rest(), Pulse(p)[..m]), r, c) <==> m == 2 && r == p.row && c == p.col
  {
    var w := Pulse(p);
    var s := Rest();
    assert ApplyAll(s, w[..1]) == s.(rows := s.rows[p.row := High]) by { assert w[..1][..0] == []; }
    assert ApplyAll(s, w[..2]) == s.(rows := s.rows[p.row := High], cols := s.cols[p.col := Low])
      by { assert w[..2][..1] == w[..1]; }
    assert ApplyAll(s, w[..3]) == s.(cols := s.cols[p.col := Low]) by {
      assert w[..3][..2] == w[..2];
      assert s.rows[p.row := High][p.row := Low] == s.rows;
    }
    PulseEffect(s, p);
    assert w[..4] == w;
  }

  /**
   During a pass that starts at rest, at most one LED glows at any moment:
   after write 4 * q + m (m < 4) cell (r, c) glows exactly when m == 2 and it
   is the q-th cell pulsed; after the last write none does.
   */
  lemma PassLightsOneCellAtATime(b: seq<seq<int>>, q: nat, m: nat, r: nat, c: nat)
    requires IsGrid(b) && q < |LitCells(b, Size, 0)| && m < 4
    ensures 4 * q + m < |PassTrace(b)|
    ensures Lit(ApplyAll(Rest(), PassTrace(b)[..4 * q + m]), r, c) <==> m == 2 && LitCells(b, Size, 0)[q] == Cell(r, c)
  {
    var cells := LitCells(b, Size, 0);
    var done, part := Pulses(cells[..q]), Pulse(cells[q])[..m];
    PulsesPrefix(cells, q, m);
    assert PassTrace(b)[..4 * q + m] == done + part;
    ApplyAllAppend(Rest(), done, part);
    LitCellsInGrid(b, Size, 0);
    assert forall i :: 0 <= i < |cells[..q]| ==> cells[..q][i] == cells[i];
    PulsesKeepRest(cells[..q]);
    assert ApplyAll(Rest(), done) == Rest();
    PulseLightsOneCell(cells[q], m, r, c);
  }

  /** Visiting cell (r, c) adds its pulse to the trace if it is lit, and nothing otherwise. */
  lemma PassTraceStep(b: seq<seq<int>>, r: nat, c: nat)
    requires IsGrid(b) && r < Size && c < Size
    ensures b[r][c] == 1 ==> Pulses(LitCells(b, r, c + 1)) == Pulses(LitCells(b, r, c)) + Pulse(Cell(r, c))
    ensures b[r][c] != 1 ==> Pulses(LitCells(b, r, c + 1)) == Pulses(LitCells(b, r, c))
  {
    var cells := LitCells(b, r, c);
    if b[r][c] == 1 {
      assert LitCells(b, r, c + 1) == cells + [Cell(r, c)];
      assert (cells + [Cell(r, c)])[..|cells|] == cells;
    } else {
      assert LitCells(b, r, c + 1) == cells + [];
      assert cells + [] == cells;
    }
  }

  /** The ten output lines as configured at start-up: rows Low, columns High. */
  method ConfigureLines() returns (rows: array<Level>, cols: array<Level>)
    ensures fresh(rows) && fresh(cols)
    ensures AtRest(Lines(rows[..], cols[..]))
  {
    rows := new Level[Size](_ => Low);
    cols := new Level[Size](_ => High);
  }

  /**
   One render pass: for each row, for each column, a lit cell gets the
   four-write pulse on its row line and its column line. Every write is
   applied to the line arrays and appended to the returned trace.
   */
  method RenderPass(b: seq<seq<int>>, rows: array<Level>, cols: array<Level>) returns (trace: seq<Write>)
    requires IsGrid(b)
    requires rows.Length == Size && cols.Length == Size && rows != cols
    modifies rows, cols
    ensures trace == PassTrace(b)
    ensures Lines(rows[..], cols[..]) == ApplyAll(old(Lines(rows[..], cols[..])), trace)
  {
    ghost var start := Lines(rows[..], cols[..]);
    trace := [];
    for r := 0 to Size
      invariant trace == Pulses(LitCells(b, r, 0))
      invariant Lines(rows[..], cols[..]) == ApplyAll(start, trace)
    {
      for c := 0 to Size
        invariant trace == Pulses(LitCells(b, r, c))
        invariant Lines(rows[..], cols[..]) == ApplyAll(start, trace)
      {
        if b[r][c] == 1 {
          ghost var before, levels := trace, Lines(rows[..], cols[..]);
          rows[r] := High;
          cols[c] := Low;
          rows[r] := Low;
          cols[c] := High;
          trace := trace + Pulse(Cell(r, c));
          assert rows[..] == levels.rows[r := Low];
          assert cols[..] == levels.cols[c := High];
          PulseEffect(levels, Cell(r, c));
          ApplyAllAppend(start, before, Pulse(Cell(r, c)));
        }
        PassTraceStep(b, r, c);
      }
    }
  }
}
