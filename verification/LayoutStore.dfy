/** The layout functions of the player over their static variables. A method whose result `ok` is
    false has reached an undefined operation (division by zero, an index outside the table) or an
    exception. */
module LayoutStore {
  import opened Wrappers
  import opened CInt
  import opened Layout

  /** A client's text, as far as the handler looks at it. */
  datatype ClientText = QueryCfg | LayoutCfg(rows: int, cols: int, pos: seq<Pos>) | Other

  /** An entry outside the table makes the whole list fail. */
  lemma PlaceFails(cells: seq<int>, cols: int, front: seq<Pos>, p: Pos, all: seq<Pos>)
    requires front + [p] <= all && !(0 <= Index(p, cols) < |cells|)
    ensures Place(cells, cols, all).None?
  {
    PlaceIsLastEntryWins(cells, cols, all);
    assert all[|front|] == p;
  }

  lemma {:induction false} CompletePrefix(sources: seq<Source>, n: nat)
    requires n <= |sources|
    ensures Complete(sources[..n]) <= Complete(sources)
    decreases |sources|
  {
    if n == |sources| {
      assert sources[..n] == sources;
    } else {
      var front := sources[..|sources| - 1];
      CompletePrefix(front, n);
      assert front[..n] == sources[..n];
    }
  }

  class LayoutStore {
    var dstVerticalBlks: int
    var dstHorizontalBlks: int
    const layerLayoutTab: array<int>
    var conf: Conf

    ghost predicate Valid()
    {
      layerLayoutTab.Length == MAX_LAYER_NUMS
    }

    ghost function View(): (g: Grid)
      requires Valid()
      reads this, layerLayoutTab
      ensures IsGrid(g)
    {
      Grid(dstVerticalBlks, dstHorizontalBlks, layerLayoutTab[..])
    }

    constructor (conf: Conf)
      ensures Valid() && this.conf == conf && fresh(layerLayoutTab)
      ensures dstVerticalBlks == dstHorizontalBlks == 8 && forall i :: 0 <= i < 128 ==> layerLayoutTab[i] == 0
    {
      dstVerticalBlks, dstHorizontalBlks := 8, 8;
      layerLayoutTab := new int[MAX_LAYER_NUMS](_ => 0);
      this.conf := conf;
    }

    method FillIdentity()
      requires Valid()
      modifies layerLayoutTab
      ensures layerLayoutTab[..] == Identity()
    {
      for i := 0 to MAX_LAYER_NUMS
        invariant forall k :: 0 <= k < i ==> layerLayoutTab[k] == k
      {
        layerLayoutTab[i] := i;
      }
    }

    method FillBlank()
      requires Valid()
      modifies layerLayoutTab
      ensures layerLayoutTab[..] == Blank()
    {
      for i := 0 to MAX_LAYER_NUMS
        invariant forall k :: 0 <= k < i ==> layerLayoutTab[k] == -1
      {
        layerLayoutTab[i] := -1;
      }
    }

    /** `layer_layout_tab[index] = input`. */
    method Store(p: Pos) returns (ok: bool)
      requires Valid()
      modifies layerLayoutTab
      ensures ok <==> 0 <= Index(p, dstHorizontalBlks) < MAX_LAYER_NUMS
      ensures ok ==> layerLayoutTab[..] == old(layerLayoutTab[..])[Index(p, dstHorizontalBlks) := p.input]
    {
      var index := p.row * dstHorizontalBlks + p.col;
      ok := 0 <= index < MAX_LAYER_NUMS;
      if ok {
        layerLayoutTab[index] := p.input;
      }
    }

    method ReadSources(sources: seq<Source>) returns (ok: bool)
      requires Valid()
      modifies layerLayoutTab
      ensures var r := Place(Blank(), dstHorizontalBlks, Complete(sources));
              (ok <==> r.Some?) && (ok ==> layerLayoutTab[..] == r.value)
    {
      FillBlank();
      for i := 0 to |sources|
        invariant Place(Blank(), dstHorizontalBlks, Complete(sources[..i])) == Some(layerLayoutTab[..])
      {
        var row, col, inputId := GetInt(sources[i].row), GetInt(sources[i].col), GetInt(sources[i].input);
        assert sources[..i + 1][..i] == sources[..i];
        if row != -1 && col != -1 && inputId != -1 {
          var p := Pos(row, col, inputId);
          assert Complete(sources[..i + 1]) == Complete(sources[..i]) + [p];
          ok := Store(p);
          if !ok {
            CompletePrefix(sources, i + 1);
            PlaceFails(Blank(), dstHorizontalBlks, Complete(sources[..i]), p, Complete(sources));
            return;
          }
          PlaceAppend(Blank(), dstHorizontalBlks, Complete(sources[..i]), p);
        }
      }
      assert sources[..|sources|] == sources;
      return true;
    }

    method ReadLayoutConf() returns (ok: bool)
      requires Valid()
      modifies this, layerLayoutTab
      ensures Valid() && conf == old(conf)
      ensures ok <==> Read(conf).Some?
      ensures ok ==> View() == Read(conf).value
    {
      if Mode(conf) == "fixed" {
        dstHorizontalBlks, dstVerticalBlks := 1, 1;
        FillIdentity();
        return true;
      }
      dstVerticalBlks, dstHorizontalBlks := 8, 8;
      if conf.layout.None? {
        FillIdentity();
        return true;
      }
      var val := GetInt(conf.layout.value.rows);
      if val != -1 {
        dstVerticalBlks := val;
      }
      val := GetInt(conf.layout.value.cols);
      if val != -1 {
        dstHorizontalBlks := val;
      }
      if conf.layout.value.sources.None? {
        return false;
      }
      ok := ReadSources(conf.layout.value.sources.value);
    }

    method WriteLayoutConf() returns (ok: bool)
      requires Valid()
      modifies this`conf
      ensures ok <==> Written(View()).Some?
      ensures conf == if ok then old(conf).(layout := Written(View())) else old(conf)
    {
      var sources: seq<Source> := [];
      for i := 0 to MAX_LAYER_NUMS
        invariant conf == old(conf)
        invariant !DividesByZero(View(), i) && sources == ToSources(Entries(View(), i))
      {
        if layerLayoutTab[i] != -1 {
          if dstHorizontalBlks == 0 {
            return false;
          }
          var row, col := Div(i, dstHorizontalBlks), Mod(i, dstHorizontalBlks);
          var source := Source(Some(row), Some(col), Some(layerLayoutTab[i]));
          sources := sources + [source];
        }
      }
      conf := conf.(layout := Some(LayoutConf(Some(dstVerticalBlks), Some(dstHorizontalBlks), Some(sources))));
      return true;
    }

    /** `None` when the loop would read past the table. */
    method SendLayoutCfg() returns (message: Option<Message>)
      requires Valid()
      modifies layerLayoutTab
      ensures message.Some? <==> Sent(old(View()), conf).Some?
      ensures message.Some? ==> Sent(old(View()), conf) == Some((message.value, View()))
    {
      var rows, cols := 16, 8;
      if Mode(conf) == "unfixed" {
        rows, cols := dstVerticalBlks, dstHorizontalBlks;
      } else {
        FillIdentity();
      }
      if rows * cols > MAX_LAYER_NUMS {
        return None;
      }
      ghost var g := Grid(rows, cols, layerLayoutTab[..]);
      var pos: seq<Pos> := [];
      var i := 0;
      while i < rows * cols
        invariant 0 <= i <= Area(g) && !DividesByZero(g, i) && pos == Entries(g, i)
        decreases rows * cols - i
      {
        if layerLayoutTab[i] != -1 {
          assert cols != 0;
          pos := pos + [Pos(Div(i, cols), Mod(i, cols), layerLayoutTab[i])];
        }
        i := i + 1;
      }
      message := Some(Message(Mode(conf), rows, cols, pos));
    }

    method Update(rows: int, cols: int, pos: seq<Pos>) returns (ok: bool)
      requires Valid() && conf.mode == Some("unfixed")
      modifies this, layerLayoutTab
      ensures Valid()
      ensures var u := Updated(old(View()), old(conf), rows, cols, pos);
              (ok <==> u.Some?) && (ok ==> u == Some((View(), conf)))
    {
      dstVerticalBlks := rows;
      dstHorizontalBlks := cols;
      FillBlank();
      for i := 0 to |pos|
        invariant dstVerticalBlks == rows && dstHorizontalBlks == cols && conf == old(conf)
        invariant Place(Blank(), cols, pos[..i]) == Some(layerLayoutTab[..])
      {
        assert pos[..i + 1] == pos[..i] + [pos[i]];
        ok := Store(pos[i]);
        if !ok {
          PlaceFails(Blank(), cols, pos[..i], pos[i], pos);
          return;
        }
        PlaceAppend(Blank(), cols, pos[..i], pos[i]);
      }
      assert pos[..|pos|] == pos;
      ok := WriteLayoutConf();
    }

    /** The text handler for a client: what it replies. */
    method OnReadText(text: ClientText) returns (ok: bool, reply: Option<Message>)
      requires Valid()
      modifies this, layerLayoutTab
      ensures Valid()
      ensures text.Other? ==> ok && reply == None && View() == old(View()) && conf == old(conf)
      ensures text.QueryCfg? ==> conf == old(conf) && (ok <==> Sent(old(View()), conf).Some?)
      ensures text.QueryCfg? && ok ==> reply.Some? && Sent(old(View()), conf) == Some((reply.value, View()))
      ensures text.LayoutCfg? ==>
                var u := Updated(old(View()), old(conf), text.rows, text.cols, text.pos);
                && (ok <==> u.Some? && Sent(u.value.0, u.value.1).Some?)
                && (ok ==> reply.Some? && conf == u.value.1 && Sent(u.value.0, conf) == Some((reply.value, View())))
    {
      reply := None;
      if text.QueryCfg? {
        reply := SendLayoutCfg();
        ok := reply.Some?;
      } else if text.LayoutCfg? {
        ok := true;
        if conf.mode == Some("unfixed") {
          ok := Update(text.rows, text.cols, text.pos);
        }
        if ok {
          reply := SendLayoutCfg();
          ok := reply.Some?;
        }
      } else {
        ok := true;
      }
    }
  }
}
