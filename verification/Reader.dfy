/**
 The paged scan: one batch of decoded records per call, advancing over the locations, resumable from
 a saved position. However the calls are interrupted, the batches are the eager read cut into pages.
 */
module Reader {
  import opened Prelude
  import opened Layouts
  import Arrow
  import Strings

  const BATCH_ROWS: nat := 2048

  /** One location: whether it opens, and what its record stream yields when drained from the start. */
  datatype Location<+Rec> = Location(opens: bool, items: seq<Result<Rec>>)

  /** The rows that come, and whether the end was reached without an error. */
  datatype Outcome<+Row> = Outcome(rows: seq<Row>, ok: bool)

  function After<Row>(rows: seq<Row>, rest: Outcome<Row>): Outcome<Row> {
    Outcome(rows + rest.rows, rest.ok)
  }

  /** The rows of one stream, up to its first framing or decoding error. */
  function Drain<Rec, Row>(items: seq<Result<Rec>>, decode: Rec -> Result<Row>): Outcome<Row> {
    if items == [] then Outcome([], true)
    else if items[0].Err? then Outcome([], false)
    else
      match decode(items[0].value)
      case Err => Outcome([], false)
      case Ok(row) => After([row], Drain(items[1..], decode))
  }

  /** The rows of the locations from `idx` on, with `seen` records of the first one already passed. */
  function Flow<Rec, Row>(sources: seq<Location<Rec>>, idx: nat, seen: nat, decode: Rec -> Result<Row>): Outcome<Row>
    decreases |sources| - idx
  {
    if idx >= |sources| then Outcome([], true)
    else if !sources[idx].opens || seen > |sources[idx].items| then Outcome([], false)
    else
      var here := Drain(sources[idx].items[seen..], decode);
      if here.ok then After(here.rows, Flow(sources, idx + 1, 0, decode)) else here
  }

  /** The eager read: every row, or one error. */
  function Eager<Rec, Row>(sources: seq<Location<Rec>>, decode: Rec -> Result<Row>): Result<seq<Row>> {
    var flow := Flow(sources, 0, 0, decode);
    if flow.ok then Ok(flow.rows) else Err
  }

  predicate AllOk<Rec>(items: seq<Result<Rec>>) {
    forall i :: 0 <= i < |items| ==> items[i].Ok?
  }

  /** `read_all`: collects the rows of all the locations. */
  method ReadAll<Rec, Row>(sources: seq<Location<Rec>>, decode: Rec -> Result<Row>) returns (r: Result<seq<Row>>)
    ensures r == Eager(sources, decode)
  {
    var rows: seq<Row> := [];
    var s := 0;
    ghost var all := Flow(sources, 0, 0, decode);
    assert [] + all.rows == all.rows;
    while s < |sources|
      invariant 0 <= s <= |sources|
      invariant all == After(rows, Flow(sources, s, 0, decode))
    {
      if !sources[s].opens {
        return Err;
      }
      var items := sources[s].items;
      var i := 0;
      assert items[0..] == items;
      while i < |items|
        invariant 0 <= i <= |items|
        invariant all == After(rows, Flow(sources, s, i, decode))
      {
        FlowStep(sources, s, i, decode);
        if items[i].Err? {
          return Err;
        }
        var row := decode(items[i].value);
        if row.Err? {
          return Err;
        }
        AfterAfter(rows, row.value, Flow(sources, s, i + 1, decode));
        rows := rows + [row.value];
        i := i + 1;
      }
      FlowStep(sources, s, i, decode);
      s := s + 1;
    }
    assert rows + [] == rows;
    return Ok(rows);
  }

  lemma AfterAfter<Row>(rows: seq<Row>, row: Row, rest: Outcome<Row>)
    ensures After(rows, After([row], rest)) == After(rows + [row], rest)
  {
    assert rows + ([row] + rest.rows) == (rows + [row]) + rest.rows;
  }

  /** One step of the flow: the next record's row, or the next location. */
  lemma FlowStep<Rec, Row>(sources: seq<Location<Rec>>, idx: nat, seen: nat, decode: Rec -> Result<Row>)
    requires idx < |sources| && sources[idx].opens && seen <= |sources[idx].items|
    ensures var items := sources[idx].items;
            var flow := Flow(sources, idx, seen, decode);
            if seen == |items| then flow == Flow(sources, idx + 1, 0, decode)
            else if items[seen].Err? then flow == Outcome([], false)
            else
              var row := decode(items[seen].value);
              if row.Err? then flow == Outcome([], false)
              else flow == After([row.value], Flow(sources, idx, seen + 1, decode))
  {
    var items := sources[idx].items;
    if seen < |items| {
      assert items[seen..][1..] == items[seen + 1..];
      if items[seen].Ok? && decode(items[seen].value).Ok? {
        var row := decode(items[seen].value).value;
        var rest := Drain(items[seen + 1..], decode);
        if rest.ok {
          var next := Flow(sources, idx + 1, 0, decode);
          assert ([row] + rest.rows) + next.rows == [row] + (rest.rows + next.rows);
        }
      }
    } else {
      assert items[seen..] == [];
      var next := Flow(sources, idx + 1, 0, decode);
      assert [] + next.rows == next.rows;
    }
  }

  lemma OneMoreOk<Rec>(items: seq<Result<Rec>>, n: nat)
    requires n < |items| && AllOk(items[..n]) && items[n].Ok?
    ensures AllOk(items[..n + 1]) && items[n..][1..] == items[n + 1..]
  {
    assert items[..n + 1] == items[..n] + [items[n]];
  }

  lemma PageCut<Row>(all: Outcome<Row>, rows: seq<Row>, rest: Outcome<Row>)
    requires all == After(rows, rest)
    ensures all.rows[..|rows|] == rows && |all.rows| == |rows| + |rest.rows| && all.ok == rest.ok
    ensures rows == [] ==> all == rest
  {
    assert [] + rest.rows == rest.rows;
  }

  class Producer<Rec, Row> {
    const sources: seq<Location<Rec>>
    const decode: Rec -> Result<Row>
    /** The location being read, or the next to open. */
    var idx: nat
    /** The records taken so far from the location at `idx`. */
    var seen: nat
    /** What the open stream has yet to yield. */
    var current: Option<seq<Result<Rec>>>

    /** A producer at a saved position, its stream not open; (0, 0) is the start. */
    constructor (sources: seq<Location<Rec>>, decode: Rec -> Result<Row>, idx: nat, seen: nat)
      ensures this.sources == sources && this.decode == decode
      ensures this.idx == idx && this.seen == seen && current == None
    {
      this.sources := sources;
      this.decode := decode;
      this.idx := idx;
      this.seen := seen;
      this.current := None;
    }

    /** The position is inside its location, past records only that came without error. */
    ghost predicate Valid()
      reads this
    {
      idx <= |sources| &&
      (idx == |sources| ==> seen == 0 && current == None) &&
      (idx < |sources| && (seen > 0 || current.Some?) ==>
         sources[idx].opens && seen <= |sources[idx].items| && AllOk(sources[idx].items[..seen])) &&
      (current.Some? ==> current.value == sources[idx].items[seen..])
    }

    /** Every row still to come. It does not depend on whether the stream is open. */
    function Ahead(): Outcome<Row>
      reads this
    {
      Flow(sources, idx, seen, decode)
    }

    /** Opens the location at `idx` and passes over the records already taken from it. */
    method Reopen() returns (r: Result<()>)
      requires Valid() && current == None && idx < |sources|
      modifies this`current
      ensures r.Ok? <==> sources[idx].opens
      ensures r.Ok? ==> Valid() && current.Some?
      ensures Ahead() == old(Ahead()) && Left() == old(Left())
    {
      if !sources[idx].opens {
        return Err;
      }
      var stream := sources[idx].items;
      ghost var items := stream;
      var record := 0;
      assert items == items[0..];
      while record < seen
        invariant 0 <= record <= seen
        invariant stream == items[record..]
      {
        assert items[..seen][record].Ok?;
        if stream == [] || stream[0].Err? {
          return Err;
        }
        stream := stream[1..];
        record := record + 1;
      }
      current := Some(stream);
      return Ok(());
    }

    /** Takes one record off the open stream and decodes it. */
    method TakeRecord() returns (r: Result<Row>)
      requires Valid() && current.Some? && current.value != []
      modifies this
      ensures r.Err? ==> old(Ahead()) == Outcome([], false)
      ensures r.Ok? ==> Valid() && old(Ahead()) == After([r.value], Ahead())
      ensures r.Ok? ==> idx == old(idx) && seen == old(seen) + 1 && Left() < old(Left())
    {
      FlowStep(sources, idx, seen, decode);
      hide Flow, AllOk, After;
      var rec := current.value[0];
      ghost var before := seen;
      current := Some(current.value[1..]);
      seen := seen + 1;
      if rec.Err? {
        return Err;
      }
      r := decode(rec.value);
      OneMoreOk(sources[idx].items, before);
    }

    /** Leaves a drained location. */
    method NextLocation()
      requires Valid() && current.Some? && current.value == []
      modifies this
      ensures Valid() && Ahead() == old(Ahead()) && idx == old(idx) + 1
    {
      FlowStep(sources, idx, seen, decode);
      hide Flow;
      current := None;
      idx := idx + 1;
      seen := 0;
    }

    /** The records still to take from the location at `idx`. */
    function Left(): int
      reads this
    {
      if idx < |sources| then |sources[idx].items| - seen else 0
    }

    /** The next page of rows, or None at the end. */
    method NextBatch() returns (r: Result<Option<seq<Row>>>)
      requires Valid()
      modifies this
      ensures r.Ok? ==> Valid()
      ensures r.Err? <==> !old(Ahead()).ok && |old(Ahead()).rows| < BATCH_ROWS
      ensures r == Ok(None) <==> old(Ahead()) == Outcome([], true)
      ensures r == Ok(None) ==> Ahead() == old(Ahead())
      ensures r.Ok? && r.value.Some? ==>
        var n := Min(BATCH_ROWS, |old(Ahead()).rows|);
        n > 0 && r.value.value == old(Ahead()).rows[..n] && old(Ahead()) == After(r.value.value, Ahead())
    {
      ghost var all := Ahead();
      var rows: seq<Row> := [];
      assert [] + all.rows == all.rows;
      assert all == After(rows, Ahead());
      hide Ahead, After, Left;
      while |rows| < BATCH_ROWS
        invariant Valid() && |rows| <= BATCH_ROWS && all == After(rows, Ahead())
        decreases |sources| - idx, Left()
      {
        PageCut(all, rows, Ahead());
        if current == None {
          if idx >= |sources| {
            AheadOfNothing();
            break;
          }
          var outcome := Reopen();
          if outcome.Err? {
            AheadOfNothing();
            return Err;
          }
        }
        if current.value != [] {
          var row := TakeRecord();
          if row.Err? {
            return Err;
          }
          AfterAfter(rows, row.value, Ahead());
          rows := rows + [row.value];
        } else {
          NextLocation();
        }
      }
      PageCut(all, rows, Ahead());
      if rows == [] {
        return Ok(None);
      }
      return Ok(Some(rows));
    }

    lemma AheadOfNothing()
      ensures idx >= |sources| ==> Ahead() == Outcome([], true)
      ensures idx < |sources| && !sources[idx].opens ==> Ahead() == Outcome([], false)
    {
    }
  }

  // ---------------------------------------------------------------- a whole scan

  function Flatten<Row>(batches: seq<seq<Row>>): seq<Row> {
    if batches == [] then [] else Flatten(batches[..|batches| - 1]) + batches[|batches| - 1]
  }

  lemma FlattenSnoc<Row>(batches: seq<seq<Row>>, batch: seq<Row>)
    ensures Flatten(batches + [batch]) == Flatten(batches) + batch
  {
    assert (batches + [batch])[..|batches|] == batches;
  }

  /** Full pages: every one has exactly `BATCH_ROWS` rows. */
  predicate FullPages<Row>(batches: seq<seq<Row>>) {
    forall i :: 0 <= i < |batches| ==> |batches[i]| == BATCH_ROWS
  }

  /** All that is ahead depends on the saved position alone. */
  lemma SavedPosition<Rec, Row>(a: Producer<Rec, Row>, b: Producer<Rec, Row>)
    requires a.Valid() && a.sources == b.sources && a.decode == b.decode
    requires a.idx == b.idx && a.seen == b.seen && b.current == None
    ensures b.Valid() && b.Ahead() == a.Ahead()
  {
  }

  /** The last page of rows `rows[n..]` is cut off the rest. */
  lemma Paged<Row>(done: seq<Row>, page: seq<Row>, rest: Outcome<Row>)
    ensures After(done, After(page, rest)) == After(done + page, rest)
  {
    assert done + (page + rest.rows) == (done + page) + rest.rows;
  }

  lemma FullSnoc<Row>(batches: seq<seq<Row>>, page: seq<Row>)
    requires FullPages(batches)
    ensures FullPages((batches + [page])[..|batches|])
    ensures |page| == BATCH_ROWS ==> FullPages(batches + [page])
  {
    assert (batches + [page])[..|batches|] == batches;
  }

  /**
   A scan driven to its end, in which any of the calls may be made on a fresh producer that knows
   only the saved position. It succeeds exactly when the eager read does, and then yields its rows
   once each, in order, in full pages but for the last; otherwise it yields whole pages of the rows
   before the error.
   */
  method Scan<Rec, Row>(sources: seq<Location<Rec>>, decode: Rec -> Result<Row>, resumed: nat -> bool)
    returns (batches: seq<seq<Row>>, ok: bool)
    ensures ok <==> Eager(sources, decode).Ok?
    ensures ok ==> Flatten(batches) == Eager(sources, decode).value
    ensures !ok ==>
      Flatten(batches) <= Flow(sources, 0, 0, decode).rows && FullPages(batches) &&
      |Flow(sources, 0, 0, decode).rows| - |Flatten(batches)| < BATCH_ROWS
    ensures batches != [] ==> FullPages(batches[..|batches| - 1]) && 0 < |batches[|batches| - 1]| <= BATCH_ROWS
  {
    var producer := new Producer(sources, decode, 0, 0);
    batches := [];
    ghost var all := Flow(sources, 0, 0, decode);
    ghost var last := false;
    assert After(Flatten(batches), producer.Ahead()) == all;
    hide Flow, Drain, Flatten, Producer.Ahead;
    while true
      invariant fresh(producer) && producer.sources == sources && producer.decode == decode
      invariant producer.Valid() && all == After(Flatten(batches), producer.Ahead())
      invariant last ==> producer.Ahead() == Outcome([], true)
      invariant if last then batches != [] && FullPages(batches[..|batches| - 1]) &&
                             0 < |batches[|batches| - 1]| <= BATCH_ROWS
                else FullPages(batches)
      decreases |producer.Ahead().rows|, !last
    {
      if resumed(|batches|) {
        ghost var before := producer;
        producer := new Producer(sources, decode, producer.idx, producer.seen);
        SavedPosition(before, producer);
      }
      ghost var ahead := producer.Ahead();
      var batch := producer.NextBatch();
      if batch.Err? {
        return batches, false;
      }
      if batch.value.None? {
        assert Flatten(batches) + [] == Flatten(batches);
        return batches, true;
      }
      var rows := batch.value.value;
      FlattenSnoc(batches, rows);
      Paged(Flatten(batches), rows, producer.Ahead());
      FullSnoc(batches, rows);
      batches := batches + [rows];
      last := |rows| < BATCH_ROWS;
      if last {
        assert ahead.rows == rows + producer.Ahead().rows;
        assert producer.Ahead().rows == [];
      }
    }
  }

  // ---------------------------------------------------------------- projection to columns

  /** For each output column the first field of that name ignoring case. */
  function FieldNamed(names: seq<string>, name: string): (i: nat)
    ensures i <= |names|
    ensures i < |names| ==> Strings.SameName(names[i], name)
    ensures forall j :: 0 <= j < i ==> !Strings.SameName(names[j], name)
  {
    if names == [] || Strings.SameName(names[0], name) then 0
    else
      var i := FieldNamed(names[1..], name);
      assert forall j :: 0 < j < i + 1 ==> names[j] == names[1..][j - 1];
      i + 1
  }

  /** No field has the name. */
  predicate Unknown(names: seq<string>, name: string) {
    forall j :: 0 <= j < |names| ==> !Strings.SameName(names[j], name)
  }

  lemma FoundOrUnknown(names: seq<string>, name: string)
    ensures var i := FieldNamed(names, name);
            if i == |names| then Unknown(names, name)
            else Strings.SameName(names[i], name) && !Unknown(names, name)
  {
    hide Strings.SameName;
  }

  lemma AllFound(names: seq<string>, outputs: seq<string>, places: seq<nat>)
    requires |places| == |outputs| && |names| !in places
    requires forall c :: 0 <= c < |outputs| ==> places[c] == FieldNamed(names, outputs[c])
    ensures forall c :: 0 <= c < |outputs| ==>
      places[c] < |names| && Strings.SameName(names[places[c]], outputs[c]) && !Unknown(names, outputs[c])
  {
    hide FieldNamed, Strings.SameName, Unknown;
    forall c | 0 <= c < |outputs|
      ensures places[c] < |names| && Strings.SameName(names[places[c]], outputs[c]) && !Unknown(names, outputs[c])
    {
      assert places[c] in places;
      FoundOrUnknown(names, outputs[c]);
    }
  }

  /** The field of every output column, by name ignoring case; a column that no field is named for is an error. */
  function Projection(names: seq<string>, outputs: seq<string>): (r: Result<seq<nat>>)
    ensures r.Err? <==> exists c :: 0 <= c < |outputs| && Unknown(names, outputs[c])
    ensures r.Ok? ==>
      |r.value| == |outputs| &&
      forall c :: 0 <= c < |outputs| ==> r.value[c] < |names| && Strings.SameName(names[r.value[c]], outputs[c])
  {
    var places := seq(|outputs|, c requires 0 <= c < |outputs| => FieldNamed(names, outputs[c]));
    if |names| in places then Err
    else
      AllFound(names, outputs, places);
      Ok(places)
  }

  predicate Distinct(projection: seq<nat>) {
    forall c, d :: 0 <= c < d < |projection| ==> projection[c] != projection[d]
  }

  /** Output columns with distinct names never share a field. */
  lemma ProjectionDistinct(names: seq<string>, outputs: seq<string>)
    requires forall c, d :: 0 <= c < d < |outputs| ==> !Strings.SameName(outputs[c], outputs[d])
    requires Projection(names, outputs).Ok?
    ensures Distinct(Projection(names, outputs).value)
  {
    var p := Projection(names, outputs).value;
    forall c, d | 0 <= c < d < |p|
      ensures p[c] != p[d]
    {
      assert Strings.SameName(names[p[c]], outputs[c]) && Strings.SameName(names[p[d]], outputs[d]);
    }
  }

  /** A projected row: each field moves into the first column that asks for it; a short row gives Null. */
  function ProjectRow(projection: seq<nat>, row: seq<Value>): (cells: seq<Value>)
    ensures |cells| == |projection|
  {
    seq(|projection|, c requires 0 <= c < |projection| =>
      if projection[c] in projection[..c] || projection[c] >= |row| then Null else row[projection[c]])
  }

  /** The wanted cells: column `c` shows field `projection[c]`. */
  function PickRow(projection: seq<nat>, row: seq<Value>): (cells: seq<Value>)
    ensures |cells| == |projection|
  {
    seq(|projection|, c requires 0 <= c < |projection| =>
      if projection[c] >= |row| then Null else row[projection[c]])
  }

  /** Moving values out instead of copying them is right for every row exactly when no two columns share a field. */
  lemma MovingIsPicking(projection: seq<nat>)
    ensures Distinct(projection) <==> forall row :: ProjectRow(projection, row) == PickRow(projection, row)
  {
    if Distinct(projection) {
      forall row
        ensures ProjectRow(projection, row) == PickRow(projection, row)
      {
        forall c | 0 <= c < |projection|
          ensures ProjectRow(projection, row)[c] == PickRow(projection, row)[c]
        {
          assert projection[c] !in projection[..c];
        }
      }
    } else {
      var c, d :| 0 <= c < d < |projection| && projection[c] == projection[d];
      var row := Repeat(BoolV(true), projection[d] + 1);
      assert projection[..d][c] == projection[d];
      assert ProjectRow(projection, row)[d] == Null && PickRow(projection, row)[d] == BoolV(true);
    }
  }

  /** One output column: what the projected rows hold at position `c`. */
  function OutputColumn(projection: seq<nat>, rows: seq<seq<Value>>, c: nat): (col: seq<Value>)
    requires c < |projection|
    ensures |col| == |rows|
  {
    seq(|rows|, r requires 0 <= r < |rows| => ProjectRow(projection, rows[r])[c])
  }

  /**
   `build_batch`: transposes rows into columns, moving each wanted value out of its row, and shreds
   each column; a batch needs at least one. Reading a cell back gives the projected value in the column's type.
   */
  method BuildBatch(types: seq<Arrow.DataType>, projection: seq<nat>, rows: seq<seq<Value>>)
    returns (r: Result<seq<Arrow.Column>>)
    requires |types| == |projection|
    ensures (forall c :: 0 <= c < |types| ==> Arrow.Fits(types[c], OutputColumn(projection, rows, c))) ==>
      (r.Ok? <==>
         types != [] &&
         forall c :: 0 <= c < |types| ==>
           Arrow.Supported(types[c]) && Arrow.AllConform(types[c], OutputColumn(projection, rows, c)))
    ensures (forall c :: 0 <= c < |types| ==> Arrow.Fits(types[c], OutputColumn(projection, rows, c))) && r.Ok? ==>
      |r.value| == |types| &&
      forall c :: 0 <= c < |types| ==> Arrow.Shows(r.value[c], types[c], OutputColumn(projection, rows, c))
  {
    hide ProjectRow, Arrow.Fits, Arrow.Supported, Arrow.AllConform, Arrow.Shows;
    var cols: seq<seq<Value>> := seq(|projection|, _ => []);
    for r := 0 to |rows|
      invariant |cols| == |projection|
      invariant forall c :: 0 <= c < |cols| ==> cols[c] == OutputColumn(projection, rows[..r], c)
    {
      var cells := MoveOut(projection, rows[r]);
      cols := seq(|projection|, c requires 0 <= c < |projection| && |cols| == |cells| == |projection| =>
        cols[c] + [cells[c]]);
    }
    assert rows[..|rows|] == rows;
    var columns: seq<Arrow.Column> := [];
    ghost var fits := forall c :: 0 <= c < |types| ==> Arrow.Fits(types[c], OutputColumn(projection, rows, c));
    for c := 0 to |types|
      invariant |columns| == c
      invariant fits ==> forall k :: 0 <= k < c ==>
        Arrow.Supported(types[k]) && Arrow.AllConform(types[k], OutputColumn(projection, rows, k)) &&
        Arrow.Shows(columns[k], types[k], OutputColumn(projection, rows, k))
    {
      assert cols[c] == OutputColumn(projection, rows, c);
      var built := Arrow.BuildArray(types[c], cols[c]);
      if built.Err? {
        return Err;
      }
      columns := columns + [built.value];
    }
    if columns == [] {
      return Err;
    }
    return Ok(columns);
  }

  /** Empties one row into the columns, leaving Null behind each value taken. */
  method MoveOut(projection: seq<nat>, row: seq<Value>) returns (cells: seq<Value>)
    ensures cells == ProjectRow(projection, row)
  {
    cells := [];
    var left := row;
    var c := 0;
    while c < |projection|
      invariant 0 <= c <= |projection| && |left| == |row|
      invariant cells == ProjectRow(projection, row)[..c]
      invariant forall k :: 0 <= k < |row| ==> left[k] == if k in projection[..c] then Null else row[k]
    {
      var src := projection[c];
      var v := Null;
      if src < |left| {
        v := left[src];
        left := left[src := Null];
      }
      assert projection[..c + 1] == projection[..c] + [src];
      cells := cells + [v];
      c := c + 1;
    }
  }
}
