/** The layout table, its persistence in the configuration tree and its exchange with web clients,
    as values. A division by zero, an index outside the table or a missing `sources` node is `None`. */
module Layout {
  import opened Wrappers
  import opened CInt

  const MAX_LAYER_NUMS := 128

  /** `dst_vertical_blks`, `dst_horizontal_blks` and `layer_layout_tab`. */
  datatype Grid = Grid(rows: int, cols: int, cells: seq<int>)

  /** One entry of a message: `rowNo`, `colNo`, `inputId`. */
  datatype Pos = Pos(row: int, col: int, input: int)

  /** One child of the `sources` node; any member may be missing. */
  datatype Source = Source(row: Option<int>, col: Option<int>, input: Option<int>)

  datatype LayoutConf = LayoutConf(rows: Option<int>, cols: Option<int>, sources: Option<seq<Source>>)

  datatype Conf = Conf(mode: Option<string>, layout: Option<LayoutConf>)

  datatype Message = Message(mode: string, rows: int, cols: int, pos: seq<Pos>)

  /** `get<int>(key, -1)`. */
  function GetInt(v: Option<int>): int {
    if v.Some? then v.value else -1
  }

  function Mode(conf: Conf): string {
    if conf.mode.Some? then conf.mode.value else "unfixed"
  }

  function Identity(): (r: seq<int>)
    ensures |r| == MAX_LAYER_NUMS && forall i :: 0 <= i < MAX_LAYER_NUMS ==> r[i] == i
  {
    seq(MAX_LAYER_NUMS, i => i)
  }

  function Blank(): (r: seq<int>)
    ensures |r| == MAX_LAYER_NUMS && forall i :: 0 <= i < MAX_LAYER_NUMS ==> r[i] == -1
  {
    seq(MAX_LAYER_NUMS, _ => -1)
  }

  predicate IsGrid(g: Grid) {
    |g.cells| == MAX_LAYER_NUMS
  }

  // ----- Printing the table

  /** Some cell makes the division by the number of columns fail. */
  predicate DividesByZero(g: Grid, n: nat)
    requires IsGrid(g) && n <= MAX_LAYER_NUMS
  {
    g.cols == 0 && exists i :: 0 <= i < n && g.cells[i] != -1
  }

  /** The entries for the used cells among the first `n`, in order. */
  function Entries(g: Grid, n: nat): seq<Pos>
    requires IsGrid(g) && n <= MAX_LAYER_NUMS && !DividesByZero(g, n)
  {
    if n == 0 then []
    else
      var i := n - 1;
      if g.cells[i] == -1 then Entries(g, i)
      else Entries(g, i) + [Pos(Div(i, g.cols), Mod(i, g.cols), g.cells[i])]
  }

  function ToSource(p: Pos): Source {
    Source(Some(p.row), Some(p.col), Some(p.input))
  }

  function ToSources(pos: seq<Pos>): (r: seq<Source>)
    ensures |r| == |pos|
    ensures forall i :: 0 <= i < |pos| ==> r[i] == ToSource(pos[i])
  {
    seq(|pos|, i requires 0 <= i < |pos| => ToSource(pos[i]))
  }

  /** `write_layout_conf`. */
  function Written(g: Grid): Option<LayoutConf>
    requires IsGrid(g)
  {
    if DividesByZero(g, MAX_LAYER_NUMS) then None
    else Some(LayoutConf(Some(g.rows), Some(g.cols), Some(ToSources(Entries(g, MAX_LAYER_NUMS)))))
  }

  // ----- Filling the table

  function Index(p: Pos, cols: int): (i: int)
    ensures i == p.row * cols + p.col
  {
    p.row * cols + p.col
  }

  /** Stores the entries in order, later ones over earlier ones. */
  function Place(cells: seq<int>, cols: int, pos: seq<Pos>): (r: Option<seq<int>>)
    ensures r.Some? ==> |r.value| == |cells|
  {
    if pos == [] then Some(cells)
    else
      var r := Place(cells, cols, pos[..|pos| - 1]);
      var p := pos[|pos| - 1];
      if r.None? || !(0 <= Index(p, cols) < |cells|) then None else Some(r.value[Index(p, cols) := p.input])
  }

  /** The entries of the configuration that have all three members, none of them -1. */
  function Complete(sources: seq<Source>): seq<Pos> {
    if sources == [] then []
    else
      var s := sources[|sources| - 1];
      var front := Complete(sources[..|sources| - 1]);
      if GetInt(s.row) != -1 && GetInt(s.col) != -1 && GetInt(s.input) != -1
      then front + [Pos(GetInt(s.row), GetInt(s.col), GetInt(s.input))] else front
  }

  /** `read_layout_conf`. */
  function Read(conf: Conf): (r: Option<Grid>)
    ensures r.Some? ==> IsGrid(r.value)
  {
    if Mode(conf) == "fixed" then Some(Grid(1, 1, Identity()))
    else if conf.layout.None? then Some(Grid(8, 8, Identity()))
    else
      var l := conf.layout.value;
      var rows := if GetInt(l.rows) != -1 then GetInt(l.rows) else 8;
      var cols := if GetInt(l.cols) != -1 then GetInt(l.cols) else 8;
      if l.sources.None? then None
      else
        var cells := Place(Blank(), cols, Complete(l.sources.value));
        if cells.None? then None else Some(Grid(rows, cols, cells.value))
  }

  // ----- Messages

  /** `send_layout_cfg`: the message, and the grid it leaves behind; `None` when it reads past the table. */
  function Sent(g: Grid, conf: Conf): (r: Option<(Message, Grid)>)
    requires IsGrid(g)
    ensures r.Some? ==> IsGrid(r.value.1)
  {
    if Mode(conf) == "unfixed" then
      if g.rows * g.cols > MAX_LAYER_NUMS then None
      else Some((Message(Mode(conf), g.rows, g.cols, Shown(g)), g))
    else
      var all := Grid(16, 8, Identity());
      Some((Message(Mode(conf), 16, 8, Shown(all)), g.(cells := Identity())))
  }

  /** The entries of the cells inside the grid. */
  function Shown(g: Grid): seq<Pos>
    requires IsGrid(g) && g.rows * g.cols <= MAX_LAYER_NUMS
  {
    if g.rows * g.cols <= 0 then [] else Entries(g, g.rows * g.cols)
  }

  /** The branch for `layout_cfg` of `ws_on_cli_read_text`, up to its reply. */
  function Updated(g: Grid, conf: Conf, rows: int, cols: int, pos: seq<Pos>): (r: Option<(Grid, Conf)>)
    requires IsGrid(g)
    ensures r.Some? ==> IsGrid(r.value.0)
  {
    if conf.mode != Some("unfixed") then Some((g, conf))
    else
      var cells := Place(Blank(), cols, pos);
      if cells.None? then None
      else
        var h := Grid(rows, cols, cells.value);
        if Written(h).None? then None else Some((h, conf.(layout := Written(h))))
  }

  /** The number of cells a message shows. */
  function Area(g: Grid): (n: nat)
    ensures n >= g.rows * g.cols && (n == 0 || n == g.rows * g.cols)
  {
    if g.rows * g.cols <= 0 then 0 else g.rows * g.cols
  }

  // ----- Division and index

  /** Row and column of a cell lead back to the cell, for every sign of the number of columns. */
  lemma IndexOfEntry(i: nat, cols: int, input: int)
    requires cols != 0
    ensures Index(Pos(Div(i, cols), Mod(i, cols), input), cols) == i
  {
  }

  /** The row of a cell is -1 exactly in the second block of a negative number of columns. */
  lemma RowIsSentinelIff(i: nat, cols: int)
    requires cols != 0
    ensures Div(i, cols) == -1 <==> cols < 0 && i / -cols == 1
    ensures Mod(i, cols) >= 0
  {
    if cols < 0 {
      NegativeDivisor(i, -cols);
    } else {
      assert i == (i / cols) * cols + i % cols;
    }
  }

  lemma NegativeDivisor(i: nat, d: int)
    requires d > 0
    ensures i / -d == -(i / d) && Div(i, -d) == -(i / d) && Mod(i, -d) == i % d
  {
    var q := i / -d;
    assert i == q * -d + i % -d && 0 <= i % -d < d;
    assert i == (i / d) * d + i % d;
    assert (q + i / d) * d == i % -d - i % d;
    MultipleIsFar(q + i / d, d);
  }

  lemma MultipleIsFar(k: int, d: int)
    requires d > 0
    ensures k >= 1 ==> k * d >= d
    ensures k <= -1 ==> k * d <= -d
  {
    if k >= 1 {
      assert (k - 1) * d >= 0;
    } else if k <= -1 {
      assert (k + 1) * d <= 0;
    }
  }

  lemma PlaceAppend(cells: seq<int>, cols: int, pos: seq<Pos>, p: Pos)
    ensures var r := Place(cells, cols, pos);
            Place(cells, cols, pos + [p]) ==
            if r.Some? && 0 <= Index(p, cols) < |cells| then Some(r.value[Index(p, cols) := p.input]) else None
  {
    assert (pos + [p])[..|pos|] == pos;
  }

  // ----- What a list of entries says

  /** `pos` lists the used cells among the first `n`, each once and in order, by row and column. */
  ghost predicate Lists(pos: seq<Pos>, cells: seq<int>, cols: int, n: nat)
    requires n <= |cells|
  {
    && (forall j :: 0 <= j < |pos| ==>
          && 0 <= Index(pos[j], cols) < n
          && 0 <= pos[j].col < (if cols < 0 then -cols else cols)
          && pos[j].input == cells[Index(pos[j], cols)] != -1)
    && (forall j, k :: 0 <= j < k < |pos| ==> Index(pos[j], cols) < Index(pos[k], cols))
    && (forall i :: 0 <= i < n && cells[i] != -1 ==> exists j :: 0 <= j < |pos| && Index(pos[j], cols) == i)
  }

  /** `sources` does the same in the form of the configuration. */
  ghost predicate SourcesList(sources: seq<Source>, cells: seq<int>, cols: int, n: nat)
    requires n <= |cells|
  {
    exists pos: seq<Pos> ::
      && Lists(pos, cells, cols, n)
      && |sources| == |pos|
      && forall j :: 0 <= j < |pos| ==> sources[j] == Source(Some(pos[j].row), Some(pos[j].col), Some(pos[j].input))
  }

  lemma ListsAppend(pos: seq<Pos>, cells: seq<int>, cols: int, i: nat, p: Pos)
    requires i < |cells| && Lists(pos, cells, cols, i)
    requires Index(p, cols) == i && 0 <= p.col < (if cols < 0 then -cols else cols) && p.input == cells[i] != -1
    ensures Lists(pos + [p], cells, cols, i + 1)
  {
    var all := pos + [p];
    forall k | 0 <= k < i + 1 && cells[k] != -1
      ensures exists j :: 0 <= j < |all| && Index(all[j], cols) == k
    {
      if k < i {
        var j :| 0 <= j < |pos| && Index(pos[j], cols) == k;
        assert all[j] == pos[j];
      } else {
        assert all[|pos|] == p;
      }
    }
  }

  lemma ColumnInRange(i: nat, cols: int)
    requires cols != 0
    ensures 0 <= Mod(i, cols) < if cols < 0 then -cols else cols
  {
    if cols < 0 {
      NegativeDivisor(i, -cols);
    } else {
      assert i == (i / cols) * cols + i % cols;
    }
  }

  lemma {:induction false} EntriesList(g: Grid, n: nat)
    requires IsGrid(g) && n <= MAX_LAYER_NUMS && !DividesByZero(g, n)
    ensures Lists(Entries(g, n), g.cells, g.cols, n)
  {
    if n > 0 {
      var i := n - 1;
      EntriesList(g, i);
      if g.cells[i] != -1 {
        IndexOfEntry(i, g.cols, g.cells[i]);
        ColumnInRange(i, g.cols);
        ListsAppend(Entries(g, i), g.cells, g.cols, i, Pos(Div(i, g.cols), Mod(i, g.cols), g.cells[i]));
      }
    }
  }

  /** A message outside "unfixed" mode shows the 16 by 8 identity. */
  ghost predicate IsFullMessage(m: Message) {
    && m.rows == 16 && m.cols == 8 && |m.pos| == 128
    && forall i :: 0 <= i < 128 ==> m.pos[i] == Pos(i / 8, i % 8, i)
  }

  lemma {:induction false} IdentityEntries(g: Grid, n: nat)
    requires g == Grid(16, 8, Identity()) && n <= MAX_LAYER_NUMS
    ensures |Entries(g, n)| == n && forall i :: 0 <= i < n ==> Entries(g, n)[i] == Pos(i / 8, i % 8, i)
  {
    if n > 0 {
      IdentityEntries(g, n - 1);
      assert Div(n - 1, 8) == (n - 1) / 8 && Mod(n - 1, 8) == (n - 1) % 8;
    }
  }

  /** The message in every mode. In mode "unfixed", also when no mode is set, it lists the used cells inside
      the grid, and there is none exactly for a grid larger than the table. In any other mode it shows all
      128 cells of the identity, with which the table is overwritten. */
  lemma SentShowsUsedCells(g: Grid, conf: Conf)
    requires IsGrid(g)
    ensures conf.mode.None? || conf.mode == Some("unfixed") ==>
              && (Sent(g, conf).Some? <==> g.rows * g.cols <= 128)
              && (Sent(g, conf).Some? ==>
                    var (m, h) := Sent(g, conf).value;
                    && h == g && m.mode == "unfixed" && m.rows == g.rows && m.cols == g.cols
                    && Lists(m.pos, g.cells, g.cols, Area(g)))
    ensures conf.mode.Some? && conf.mode != Some("unfixed") ==>
              && Sent(g, conf).Some?
              && var (m, h) := Sent(g, conf).value;
                 && m.mode == conf.mode.value && IsFullMessage(m)
                 && h.rows == g.rows && h.cols == g.cols && forall i :: 0 <= i < 128 ==> h.cells[i] == i
  {
    if Mode(conf) != "unfixed" {
      IdentityEntries(Grid(16, 8, Identity()), 128);
    } else if g.rows * g.cols <= MAX_LAYER_NUMS {
      var n := Area(g);
      assert g.cols == 0 ==> n == 0;
      EntriesList(g, n);
      assert Shown(g) == Entries(g, n);
    }
  }

  /** What is written: the dimensions, and a source with all three members for each used cell of the table;
      it fails exactly when there is a used cell and no column. */
  lemma WrittenListsUsedCells(g: Grid)
    requires IsGrid(g)
    ensures Written(g).None? <==> g.cols == 0 && exists i :: 0 <= i < 128 && g.cells[i] != -1
    ensures Written(g).Some? ==>
              && Written(g).value.rows == Some(g.rows) && Written(g).value.cols == Some(g.cols)
              && Written(g).value.sources.Some?
              && SourcesList(Written(g).value.sources.value, g.cells, g.cols, 128)
  {
    if Written(g).Some? {
      EntriesList(g, 128);
    }
  }

  // ----- Persistence

  /** The cells whose row is the sentinel, so that they come back as -1. */
  ghost predicate AreLost(cols: int, lost: seq<bool>) {
    |lost| == MAX_LAYER_NUMS && forall i :: 0 <= i < MAX_LAYER_NUMS ==> lost[i] == (cols < 0 && i / -cols == 1)
  }

  ghost function Lost(cols: int): (lost: seq<bool>)
    ensures AreLost(cols, lost)
  {
    seq(MAX_LAYER_NUMS, i => cols < 0 && i / -cols == 1)
  }

  function Filtered(pos: seq<Pos>): seq<Pos> {
    Complete(ToSources(pos))
  }

  lemma FilteredStep(front: seq<Pos>, p: Pos)
    ensures Filtered(front + [p]) ==
            if p.row != -1 && p.col != -1 && p.input != -1 then Filtered(front) + [p] else Filtered(front)
  {
    assert ToSources(front + [p])[..|front|] == ToSources(front);
  }

  lemma RowOf(i: nat, cols: int, lost: seq<bool>, input: int)
    requires i < MAX_LAYER_NUMS && cols != 0 && AreLost(cols, lost)
    ensures var p := Pos(Div(i, cols), Mod(i, cols), input);
            (lost[i] <==> p.row == -1) && p.col != -1 && Index(p, cols) == i
  {
    RowIsSentinelIff(i, cols);
    IndexOfEntry(i, cols, input);
  }

  /** Reading the entries of the first `n` cells restores them, but for those whose row is the sentinel. */
  lemma {:induction false} PlaceFiltered(g: Grid, n: nat, lost: seq<bool>)
    requires IsGrid(g) && n <= MAX_LAYER_NUMS && g.cols != 0 && AreLost(g.cols, lost)
    ensures var r := Place(Blank(), g.cols, Filtered(Entries(g, n)));
            && r.Some?
            && forall i :: 0 <= i < MAX_LAYER_NUMS ==> r.value[i] == if i < n && !lost[i] then g.cells[i] else -1
  {
    if n > 0 {
      PlaceFiltered(g, n - 1, lost);
      var i := n - 1;
      if g.cells[i] != -1 {
        var p := Pos(Div(i, g.cols), Mod(i, g.cols), g.cells[i]);
        FilteredStep(Entries(g, i), p);
        RowOf(i, g.cols, lost, g.cells[i]);
        if !lost[i] {
          PlaceAppend(Blank(), g.cols, Filtered(Entries(g, i)), p);
        }
      }
    }
  }

  /** What can be persisted: rows and columns differ from the sentinel -1, and no used cell has row -1. */
  ghost predicate Persistable(g: Grid)
    requires IsGrid(g)
  {
    && g.rows != -1 && g.cols != -1
    && (g.cols == 0 ==> forall i :: 0 <= i < MAX_LAYER_NUMS ==> g.cells[i] == -1)
    && (g.cols < 0 ==> forall i :: 0 <= i < MAX_LAYER_NUMS && i / -g.cols == 1 ==> g.cells[i] == -1)
  }

  lemma {:induction false} NoEntriesOfBlank(g: Grid, n: nat)
    requires IsGrid(g) && n <= MAX_LAYER_NUMS && forall i :: 0 <= i < n ==> g.cells[i] == -1
    ensures Entries(g, n) == []
  {
    if n > 0 {
      NoEntriesOfBlank(g, n - 1);
    }
  }

  /** Reading back what was written restores rows, columns and every cell exactly for the grids that
      are `Persistable`: in particular for all tables when there is at least one column and the number
      of rows is not negative. */
  lemma PersistenceRoundTripIff(g: Grid, conf: Conf)
    requires IsGrid(g) && Mode(conf) != "fixed"
    ensures Written(g).Some? && Read(conf.(layout := Written(g))) == Some(g) <==> Persistable(g)
    ensures g.cols >= 1 && g.rows >= 0 ==> Persistable(g)
  {
    var n := MAX_LAYER_NUMS;
    if Written(g).Some? {
      if g.cols == 0 {
        NoEntriesOfBlank(g, n);
        assert Blank() == g.cells;
      } else {
        var lost := Lost(g.cols);
        PlaceFiltered(g, n, lost);
        var cells := Place(Blank(), g.cols, Filtered(Entries(g, n))).value;
        if Persistable(g) {
          assert cells == g.cells;
        } else if cells == g.cells {
          assert forall i :: 0 <= i < n && g.cols < 0 && i / -g.cols == 1 ==> lost[i];
        }
      }
    }
  }

  // ----- Reading

  /** A source that counts: all three members are there, none of them -1. */
  predicate IsFull(s: Source) {
    && s.row.Some? && s.row.value != -1 && s.col.Some? && s.col.value != -1
    && s.input.Some? && s.input.value != -1
  }

  /** The cell a source names. */
  function Cell(s: Source, cols: int): int
    requires IsFull(s)
  {
    s.row.value * cols + s.col.value
  }

  ghost predicate InsideTable(sources: seq<Source>, cols: int) {
    forall j :: 0 <= j < |sources| && IsFull(sources[j]) ==> 0 <= Cell(sources[j], cols) < 128
  }

  /** No full source after number `j` names the same cell. */
  ghost predicate IsLatest(sources: seq<Source>, cols: int, j: nat)
    requires j < |sources| && IsFull(sources[j])
  {
    forall l :: j < l < |sources| && IsFull(sources[l]) ==> Cell(sources[l], cols) != Cell(sources[j], cols)
  }

  /** Each cell holds what the last full source for it says, and -1 if there is none. */
  ghost predicate HoldsLatest(cells: seq<int>, sources: seq<Source>, cols: int)
    requires |cells| == 128 && InsideTable(sources, cols)
  {
    && (forall j :: 0 <= j < |sources| && IsFull(sources[j]) && IsLatest(sources, cols, j) ==>
          cells[Cell(sources[j], cols)] == sources[j].input.value)
    && (forall k :: 0 <= k < 128 && !Names(sources, cols, k) ==> cells[k] == -1)
  }

  /** Some full source names cell `k`. */
  ghost predicate Names(sources: seq<Source>, cols: int, k: int) {
    exists j :: 0 <= j < |sources| && IsFull(sources[j]) && Cell(sources[j], cols) == k
  }

  lemma InsideTableFront(sources: seq<Source>, s: Source, cols: int)
    ensures InsideTable(sources + [s], cols) <==>
            InsideTable(sources, cols) && (IsFull(s) ==> 0 <= Cell(s, cols) < 128)
  {
    var all := sources + [s];
    assert all[|sources|] == s;
    assert forall j :: 0 <= j < |sources| ==> all[j] == sources[j];
  }

  lemma HoldsLatestAppend(cells: seq<int>, sources: seq<Source>, s: Source, cols: int)
    requires |cells| == 128 && InsideTable(sources, cols) && HoldsLatest(cells, sources, cols)
    requires IsFull(s) ==> 0 <= Cell(s, cols) < 128
    ensures InsideTable(sources + [s], cols)
    ensures HoldsLatest(if IsFull(s) then cells[Cell(s, cols) := s.input.value] else cells, sources + [s], cols)
  {
    var all := sources + [s];
    InsideTableFront(sources, s, cols);
    assert all[|sources|] == s;
    assert forall j :: 0 <= j < |sources| ==> all[j] == sources[j];
    var r := if IsFull(s) then cells[Cell(s, cols) := s.input.value] else cells;
    forall j | 0 <= j < |all| && IsFull(all[j]) && IsLatest(all, cols, j)
      ensures r[Cell(all[j], cols)] == all[j].input.value
    {
      if j < |sources| {
        assert IsLatest(sources, cols, j) by {
          assert forall l :: j < l < |sources| ==> sources[l] == all[l];
        }
        assert IsFull(s) ==> Cell(all[|sources|], cols) != Cell(all[j], cols);
      }
    }
    forall k | 0 <= k < 128 && !Names(all, cols, k)
      ensures r[k] == -1
    {
      assert forall j :: 0 <= j < |sources| && IsFull(sources[j]) ==> sources[j] == all[j] && Cell(all[j], cols) != k;
      assert IsFull(s) ==> Cell(all[|sources|], cols) != k;
    }
  }

  lemma CompleteAppend(front: seq<Source>, s: Source)
    ensures Complete(front + [s]) ==
            if IsFull(s) then Complete(front) + [Pos(s.row.value, s.col.value, s.input.value)] else Complete(front)
  {
    assert (front + [s])[..|front|] == front;
  }

  lemma {:induction false} SourcesHoldLatest(sources: seq<Source>, cols: int)
    ensures var r := Place(Blank(), cols, Complete(sources));
            && (r.Some? <==> InsideTable(sources, cols))
            && (r.Some? ==> HoldsLatest(r.value, sources, cols))
  {
    if sources != [] {
      var front, s := sources[..|sources| - 1], sources[|sources| - 1];
      SourcesHoldLatest(front, cols);
      assert sources == front + [s];
      InsideTableFront(front, s, cols);
      CompleteAppend(front, s);
      if IsFull(s) {
        PlaceAppend(Blank(), cols, Complete(front), Pos(s.row.value, s.col.value, s.input.value));
      }
      if InsideTable(sources, cols) {
        HoldsLatestAppend(Place(Blank(), cols, Complete(front)).value, front, s, cols);
      }
    }
  }

  /** What reading gives for every configuration: a single cell and the identity in mode "fixed"; 8 by 8 and
      the identity without a layout; otherwise the stored dimensions, 8 for each that is missing or -1, and in
      each cell the last full source for it. It fails exactly for a layout without sources or with one
      outside the table. */
  lemma ReadIs(conf: Conf)
    ensures conf.mode == Some("fixed") ==>
              Read(conf).Some? && Read(conf).value.rows == 1 && Read(conf).value.cols == 1
    ensures conf.mode != Some("fixed") && conf.layout.None? ==>
              Read(conf).Some? && Read(conf).value.rows == 8 && Read(conf).value.cols == 8
    ensures conf.mode == Some("fixed") || conf.layout.None? ==>
              forall i :: 0 <= i < 128 ==> Read(conf).value.cells[i] == i
    ensures conf.mode != Some("fixed") && conf.layout.Some? ==>
              var l := conf.layout.value;
              var rows := if l.rows.Some? && l.rows.value != -1 then l.rows.value else 8;
              var cols := if l.cols.Some? && l.cols.value != -1 then l.cols.value else 8;
              && (Read(conf).Some? <==> l.sources.Some? && InsideTable(l.sources.value, cols))
              && (Read(conf).Some? ==>
                    && Read(conf).value.rows == rows && Read(conf).value.cols == cols
                    && HoldsLatest(Read(conf).value.cells, l.sources.value, cols))
  {
    if conf.layout.Some? && conf.layout.value.sources.Some? {
      var l := conf.layout.value;
      SourcesHoldLatest(l.sources.value, if l.cols.Some? && l.cols.value != -1 then l.cols.value else 8);
    }
  }

  // ----- Client messages

  /** No entry after number `j` names the same cell. */
  ghost predicate IsLast(pos: seq<Pos>, cols: int, j: nat)
    requires j < |pos|
  {
    forall l :: j < l < |pos| ==> Index(pos[l], cols) != Index(pos[j], cols)
  }

  /** In general the table becomes the last entry for each cell, and -1 where there is none; the
      update goes through exactly when every entry lies inside the table. */
  lemma {:induction false} PlaceIsLastEntryWins(cells: seq<int>, cols: int, pos: seq<Pos>)
    ensures Place(cells, cols, pos).Some? <==> forall j :: 0 <= j < |pos| ==> 0 <= Index(pos[j], cols) < |cells|
    ensures Place(cells, cols, pos).Some? ==>
              var r := Place(cells, cols, pos).value;
              && (forall j :: 0 <= j < |pos| && IsLast(pos, cols, j) ==> r[Index(pos[j], cols)] == pos[j].input)
              && (forall k :: 0 <= k < |cells| && (forall j :: 0 <= j < |pos| ==> Index(pos[j], cols) != k)
                    ==> r[k] == cells[k])
  {
    if pos != [] {
      var last := |pos| - 1;
      var front := pos[..last];
      PlaceIsLastEntryWins(cells, cols, front);
      assert forall j :: 0 <= j < last ==> front[j] == pos[j];
      if Place(cells, cols, pos).Some? {
        var r := Place(cells, cols, pos).value;
        var q := Place(cells, cols, front).value;
        forall j | 0 <= j < |pos| && IsLast(pos, cols, j)
          ensures r[Index(pos[j], cols)] == pos[j].input
        {
          if j < last {
            assert Index(pos[last], cols) != Index(pos[j], cols);
            assert IsLast(front, cols, j);
          }
        }
        forall k | 0 <= k < |cells| && (forall j :: 0 <= j < |pos| ==> Index(pos[j], cols) != k)
          ensures r[k] == cells[k]
        {
          assert forall j :: 0 <= j < last ==> Index(front[j], cols) != k;
          assert Index(pos[last], cols) != k;
        }
      }
    }
  }

  lemma {:induction false} SomeEntryIsLast(pos: seq<Pos>, cols: int, i: nat) returns (j: nat)
    requires i < |pos|
    ensures i <= j < |pos| && Index(pos[j], cols) == Index(pos[i], cols) && IsLast(pos, cols, j)
    decreases |pos| - i
  {
    j := i;
    if l :| i < l < |pos| && Index(pos[l], cols) == Index(pos[i], cols) {
      j := SomeEntryIsLast(pos, cols, l);
    }
  }

  /** An accepted table is blank exactly when every last entry is -1. */
  lemma BlankIffLastsAre(cells: seq<int>, cols: int, pos: seq<Pos>)
    requires |cells| == 128 && Place(Blank(), cols, pos) == Some(cells)
    ensures (forall k :: 0 <= k < 128 ==> cells[k] == -1) <==>
            (forall j :: 0 <= j < |pos| && IsLast(pos, cols, j) ==> pos[j].input == -1)
  {
    PlaceIsLastEntryWins(Blank(), cols, pos);
    if forall j :: 0 <= j < |pos| && IsLast(pos, cols, j) ==> pos[j].input == -1 {
      forall k | 0 <= k < 128
        ensures cells[k] == -1
      {
        if i :| 0 <= i < |pos| && Index(pos[i], cols) == k {
          var j := SomeEntryIsLast(pos, cols, i);
        }
      }
    }
  }

  /** A client's update, whatever it holds. Only a configuration whose mode is set to "unfixed" takes it. It
      goes through exactly when all entries lie inside the table and, without columns, leave no cell used;
      the table then holds the last entry for each cell, -1 elsewhere, and is what gets stored. */
  lemma UpdatedIs(g: Grid, conf: Conf, rows: int, cols: int, pos: seq<Pos>)
    requires IsGrid(g)
    ensures conf.mode != Some("unfixed") ==> Updated(g, conf, rows, cols, pos) == Some((g, conf))
    ensures conf.mode == Some("unfixed") ==>
              (Updated(g, conf, rows, cols, pos).Some? <==>
               && (forall j :: 0 <= j < |pos| ==> 0 <= Index(pos[j], cols) < 128)
               && (cols == 0 ==> forall j :: 0 <= j < |pos| && IsLast(pos, cols, j) ==> pos[j].input == -1))
    ensures conf.mode == Some("unfixed") && Updated(g, conf, rows, cols, pos).Some? ==>
              var (h, conf1) := Updated(g, conf, rows, cols, pos).value;
              && h.rows == rows && h.cols == cols
              && (forall j :: 0 <= j < |pos| ==> 0 <= Index(pos[j], cols) < 128)
              && (forall j :: 0 <= j < |pos| && IsLast(pos, cols, j) ==> h.cells[Index(pos[j], cols)] == pos[j].input)
              && (forall k :: 0 <= k < 128 && (forall j :: 0 <= j < |pos| ==> Index(pos[j], cols) != k)
                    ==> h.cells[k] == -1)
              && conf1.mode == conf.mode && conf1.layout == Written(h) && Written(h).Some?
  {
    PlaceIsLastEntryWins(Blank(), cols, pos);
    var r := Place(Blank(), cols, pos);
    if r.Some? {
      BlankIffLastsAre(r.value, cols, pos);
    }
  }

  /** Sending the first `n` cells and placing them again restores them and clears the rest. */
  lemma {:induction false} PlaceEntries(g: Grid, n: nat)
    requires IsGrid(g) && n <= MAX_LAYER_NUMS && (g.cols != 0 || n == 0)
    ensures Place(Blank(), g.cols, Entries(g, n)).Some?
    ensures var r := Place(Blank(), g.cols, Entries(g, n)).value;
            forall i :: 0 <= i < MAX_LAYER_NUMS ==> r[i] == if i < n then g.cells[i] else -1
  {
    if n > 0 {
      PlaceEntries(g, n - 1);
      var i := n - 1;
      if g.cells[i] != -1 {
        var p := Pos(Div(i, g.cols), Mod(i, g.cols), g.cells[i]);
        IndexOfEntry(i, g.cols, g.cells[i]);
        PlaceAppend(Blank(), g.cols, Entries(g, i), p);
      }
    }
  }

  lemma {:induction false} EntriesAgree(g: Grid, h: Grid, n: nat)
    requires IsGrid(g) && IsGrid(h) && n <= MAX_LAYER_NUMS && g.cols == h.cols && (g.cols != 0 || n == 0)
    requires forall i :: 0 <= i < n ==> g.cells[i] == h.cells[i]
    ensures Entries(g, n) == Entries(h, n)
  {
    if n > 0 {
      EntriesAgree(g, h, n - 1);
    }
  }

  /** A message is sent unless the grid is larger than the table; fed back as a client's update in the
      mode that takes updates it is accepted, keeps dimensions and the cells inside the grid and clears
      the others; and the next message is the same. */
  lemma MessageIsFixpoint(g: Grid, conf: Conf)
    requires IsGrid(g) && conf.mode == Some("unfixed")
    ensures Sent(g, conf).Some? <==> g.rows * g.cols <= MAX_LAYER_NUMS
    ensures Sent(g, conf).Some? ==>
              var (m, g1) := Sent(g, conf).value;
              var u := Updated(g1, conf, m.rows, m.cols, m.pos);
              && u.Some?
              && var (h, conf1) := u.value;
                 && h.rows == g.rows && h.cols == g.cols
                 && (forall i :: 0 <= i < MAX_LAYER_NUMS ==> h.cells[i] == if i < Area(g) then g.cells[i] else -1)
                 && Sent(h, conf1) == Some((m, h))
  {
    if Sent(g, conf).Some? {
      var n := Area(g);
      var (m, g1) := Sent(g, conf).value;
      PlaceEntries(g, n);
      assert m.pos == Entries(g, n);
      var h := Grid(g.rows, g.cols, Place(Blank(), g.cols, m.pos).value);
      EntriesAgree(g, h, n);
    }
  }

  /** In every other mode the update is ignored, and the next message is the same too. */
  lemma MessageIsStable(g: Grid, conf: Conf)
    requires IsGrid(g) && conf.mode != Some("unfixed") && Sent(g, conf).Some?
    ensures var (m, g1) := Sent(g, conf).value;
            && Updated(g1, conf, m.rows, m.cols, m.pos) == Some((g1, conf))
            && Sent(g1, conf) == Some((m, g1))
            && g1.rows == g.rows && g1.cols == g.cols
            && (Mode(conf) != "unfixed" ==>
                  && m.rows == 16 && m.cols == 8
                  && forall i :: 0 <= i < MAX_LAYER_NUMS ==> g1.cells[i] == i)
  {
  }

  /** An accepted update survives a restart exactly when its grid is `Persistable`. */
  lemma UpdateSurvivesRestartIff(g: Grid, conf: Conf, rows: int, cols: int, pos: seq<Pos>)
    requires IsGrid(g) && conf.mode == Some("unfixed") && Updated(g, conf, rows, cols, pos).Some?
    ensures var (h, conf1) := Updated(g, conf, rows, cols, pos).value;
            Read(conf1) == Some(h) <==> Persistable(h)
  {
    var (h, conf1) := Updated(g, conf, rows, cols, pos).value;
    PersistenceRoundTripIff(h, conf);
  }
}
