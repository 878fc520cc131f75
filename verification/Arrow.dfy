/**
 Shredding decoded values into columns (offsets and validity for lists, one child column per struct
 field, one full-length child per union variant) and reading them back.
 */
module Arrow {
  import opened Prelude
  import opened Layouts
  import Leaf
  import Strings

  datatype DataType =
    | Utf8
    | Int64
    | Boolean
    | Decimal128(precision: nat, scale: int)
    | List(item: DataType)
    | Struct(fields: seq<ColumnField>)

  datatype ColumnField = ColumnField(name: string, ty: DataType)

  datatype Column =
    | StringColumn(strings: seq<Option<string>>)
    | IntColumn(ints: seq<Option<I64>>)
    | BoolColumn(bools: seq<Option<bool>>)
    | DecimalColumn(scale: int, unscaled: seq<Option<I128>>)
    | ListColumn(offsets: seq<int>, child: Column, present: seq<bool>)
    | StructColumn(fields: seq<ColumnField>, columns: seq<Column>, valid: seq<bool>)

  const I32_MAX: int := 0x7FFF_FFFF

  function Wrap32(n: int): int {
    (n + 0x8000_0000) % 0x1_0000_0000 - 0x8000_0000
  }

  function Wrap64(n: int): I64 {
    (n + 0x8000_0000_0000_0000) % 0x1_0000_0000_0000_0000 - 0x8000_0000_0000_0000
  }

  /** A signed byte taken as an unsigned one. */
  function AsU8(scale: int): nat {
    scale % 256
  }

  // ---------------------------------------------------------------- reading back

  function Length(c: Column): nat {
    match c
    case StringColumn(cells) => |cells|
    case IntColumn(cells) => |cells|
    case BoolColumn(cells) => |cells|
    case DecimalColumn(_, cells) => |cells|
    case ListColumn(_, _, present) => |present|
    case StructColumn(_, _, valid) => |valid|
  }

  /** Row `i` takes a stretch of the first `limit` items. */
  predicate Stretch(offsets: seq<int>, i: nat, limit: nat)
    requires i + 1 < |offsets|
  {
    0 <= offsets[i] <= offsets[i + 1] <= limit
  }

  /** Offsets never go back and stay inside the child; children of a struct are as long as it. */
  predicate WellFormed(c: Column) {
    match c
    case ListColumn(offsets, child, present) =>
      |offsets| == |present| + 1 && WellFormed(child) &&
      forall i :: 0 <= i < |present| ==> Stretch(offsets, i, Length(child))
    case StructColumn(fields, columns, valid) =>
      |columns| == |fields| &&
      forall i :: 0 <= i < |columns| ==> WellFormed(columns[i]) && Length(columns[i]) == |valid|
    case _ => true
  }

  function Cell(c: Column, row: nat): Value
    requires WellFormed(c) && row < Length(c)
    decreases c
  {
    match c
    case StringColumn(cells) => if cells[row].None? then Null else StrV(cells[row].value)
    case IntColumn(cells) => if cells[row].None? then Null else IntV(cells[row].value)
    case BoolColumn(cells) => if cells[row].None? then Null else BoolV(cells[row].value)
    case DecimalColumn(scale, cells) => if cells[row].None? then Null else DecV(cells[row].value, Max(scale, 0))
    case ListColumn(offsets, child, present) =>
      if !present[row] then Null
      else
        assert Stretch(offsets, row, Length(child));
        ListV(seq(offsets[row + 1] - offsets[row], i requires 0 <= i < offsets[row + 1] - offsets[row] =>
          Cell(child, offsets[row] + i)))
    case StructColumn(fields, columns, valid) =>
      if !valid[row] then Null
      else StructV(seq(|fields|, i requires 0 <= i < |fields| => (fields[i].name, Cell(columns[i], row))))
  }

  /** `value_at`, with its loops over list items and struct fields. */
  method ValueAt(c: Column, row: nat) returns (v: Value)
    requires WellFormed(c) && row < Length(c)
    ensures v == Cell(c, row)
    decreases c
  {
    match c {
      case ListColumn(offsets, child, present) =>
        if !present[row] {
          return Null;
        }
        assert Stretch(offsets, row, Length(child));
        var start, n := offsets[row], offsets[row + 1] - offsets[row];
        var out: seq<Value> := [];
        for i := 0 to n
          invariant |out| == i && forall k :: 0 <= k < i ==> out[k] == Cell(child, start + k)
        {
          var item := ValueAt(child, start + i);
          out := out + [item];
        }
        return ListV(out);
      case StructColumn(fields, columns, valid) =>
        if !valid[row] {
          return Null;
        }
        var pairs: Pairs := [];
        for i := 0 to |fields|
          invariant |pairs| == i && forall k :: 0 <= k < i ==> pairs[k] == (fields[k].name, Cell(columns[k], row))
        {
          var item := ValueAt(columns[i], row);
          pairs := pairs + [(fields[i].name, item)];
        }
        return StructV(pairs);
      case _ => return Cell(c, row);
    }
  }

  // ---------------------------------------------------------------- what one cell becomes

  /** The value a cell of type `dt` holds after being given `v`; Err when the column refuses it. */
  function Conform(dt: DataType, v: Value): Result<Value>
    decreases dt, 0
  {
    if v.Null? then Ok(Null)
    else
      match dt
      case Utf8 => Ok(StrV(Leaf.DisplayScalar(v)))
      case Int64 =>
        if v.IntV? then Ok(v)
        else if v.DecV? && v.scale == 0 then Ok(IntV(Wrap64(v.unscaled)))
        else Err
      case Boolean => if v.BoolV? then Ok(v) else Err
      case Decimal128(_, scale) =>
        var u :- ConformDecimal(v, scale);
        Ok(DecV(u, Max(scale, 0)))
      case List(item) =>
        if !v.ListV? then Err
        else
          var items :- ConformItems(item, v.items);
          Ok(ListV(items))
      case Struct(fields) =>
        if !v.StructV? then Err
        else
          var pairs :- ConformFields(fields, v.pairs);
          Ok(StructV(pairs))
  }

  function ConformDecimal(v: Value, scale: int): Result<I128> {
    match v
    case DecV(u, s) => Leaf.Rescale(u, s, AsU8(scale))
    case IntV(n) => Leaf.Rescale(n, 0, AsU8(scale))
    case _ => Err
  }

  /** A decimal column's scale is a signed byte that is read as an unsigned one. */
  predicate ReadAs(scale: int, t: nat) {
    t < 256 && (scale == t || scale == t - 256)
  }

  /**
   The number in the cell of a decimal column: the value's own at the column's scale, cut toward zero
   where the column has fewer decimals, exactly when 128 bits hold it.
   */
  predicate Scaled(v: Value, w: I128, t: nat) {
    match v
    case DecV(u, s) => Leaf.ScaleFits(u, s, t) <==> Leaf.SameNumber(w, u, s, t)
    case IntV(n) => Leaf.ScaleFits(n, 0, t) <==> Leaf.SameNumber(w, n, 0, t)
    case _ => false
  }

  lemma ConformScaled(v: Value, scale: int, t: nat)
    requires ReadAs(scale, t) && ConformDecimal(v, scale).Ok?
    ensures Scaled(v, ConformDecimal(v, scale).value, t)
  {
    hide Leaf.Rescale, Leaf.ScaleFits, Leaf.SameNumber;
    assert AsU8(scale) == t;
    match v {
      case DecV(u, s) => Leaf.RescaleExact(u, s, t);
      case IntV(n) => Leaf.RescaleExact(n, 0, t);
    }
  }

  function ConformItems(item: DataType, items: seq<Value>): Result<seq<Value>>
    decreases item, 1
  {
    if forall i :: 0 <= i < |items| ==> Conform(item, items[i]).Ok? then
      Ok(seq(|items|, i requires 0 <= i < |items| => Conform(item, items[i]).value))
    else Err
  }

  function ConformFields(fields: seq<ColumnField>, pairs: Pairs): Result<Pairs>
    decreases fields, 0
  {
    if forall i :: 0 <= i < |fields| ==> Conform(fields[i].ty, Lookup(pairs, fields[i].name)).Ok? then
      Ok(seq(|fields|, i requires 0 <= i < |fields| =>
        (fields[i].name, Conform(fields[i].ty, Lookup(pairs, fields[i].name)).value)))
    else Err
  }

  predicate AllConform(dt: DataType, col: seq<Value>) {
    forall r :: 0 <= r < |col| ==> Conform(dt, col[r]).Ok?
  }

  /** A type the builders accept: a decimal the library can hold, no struct without fields. */
  predicate Supported(dt: DataType) {
    match dt
    case Decimal128(p, s) => 1 <= p <= 38 && s <= 38 && (s > 0 ==> s <= p)
    case List(item) => Supported(item)
    case Struct(fields) => fields != [] && forall i :: 0 <= i < |fields| ==> Supported(fields[i].ty)
    case _ => true
  }

  /** All list items of a column, end to end. */
  function Flat(col: seq<Value>): seq<Value> {
    if col == [] then []
    else
      var last := col[|col| - 1];
      Flat(col[..|col| - 1]) + (if last.ListV? then last.items else [])
  }

  /** The values of one struct field, row by row. */
  function FieldColumn(name: string, col: seq<Value>): (out: seq<Value>)
    ensures |out| == |col|
  {
    seq(|col|, r requires 0 <= r < |col| => if col[r].StructV? then Lookup(col[r].pairs, name) else Null)
  }

  /** The offsets of every list column fit 32 bits. */
  predicate Fits(dt: DataType, col: seq<Value>)
    decreases dt
  {
    match dt
    case List(item) => |Flat(col)| <= I32_MAX && Fits(item, Flat(col))
    case Struct(fields) => forall i :: 0 <= i < |fields| ==> Fits(fields[i].ty, FieldColumn(fields[i].name, col))
    case _ => true
  }

  // ---------------------------------------------------------------- building columns

  /** Reading every row of the column back gives what `Conform` says. */
  ghost predicate Shows(c: Column, dt: DataType, col: seq<Value>) {
    WellFormed(c) && Length(c) == |col| &&
    forall r :: 0 <= r < |col| ==> Conform(dt, col[r]) == Ok(Cell(c, r))
  }

  /** `build_array`. */
  method BuildArray(dt: DataType, col: seq<Value>) returns (r: Result<Column>)
    ensures r.Ok? ==> WellFormed(r.value) && Length(r.value) == |col|
    ensures Fits(dt, col) ==> (r.Ok? <==> Supported(dt) && AllConform(dt, col))
    ensures Fits(dt, col) && r.Ok? ==> Shows(r.value, dt, col)
    decreases dt, 0
  {
    match dt {
      case Utf8 => r := BuildStrings(col);
      case Int64 => r := BuildInts(col);
      case Boolean => r := BuildBools(col);
      case Decimal128(precision, scale) => r := BuildDecimals(precision, scale, col);
      case List(item) => r := BuildList(item, col);
      case Struct(fields) => r := BuildStruct(fields, col);
    }
  }

  method BuildStrings(col: seq<Value>) returns (r: Result<Column>)
    ensures r.Ok? && Shows(r.value, Utf8, col)
  {
    var cells: seq<Option<string>> := [];
    for i := 0 to |col|
      invariant |cells| == i
      invariant forall k :: 0 <= k < i ==>
        cells[k] == if col[k].Null? then None else Some(Leaf.DisplayScalar(col[k]))
    {
      cells := cells + [if col[i].Null? then None else Some(Leaf.DisplayScalar(col[i]))];
    }
    return Ok(StringColumn(cells));
  }

  method BuildInts(col: seq<Value>) returns (r: Result<Column>)
    ensures r.Ok? <==> AllConform(Int64, col)
    ensures r.Ok? ==> Shows(r.value, Int64, col)
  {
    var cells: seq<Option<I64>> := [];
    for i := 0 to |col|
      invariant |cells| == i && AllConform(Int64, col[..i])
      invariant forall k :: 0 <= k < i ==>
        if cells[k].None? then col[k].Null? else Conform(Int64, col[k]) == Ok(IntV(cells[k].value))
    {
      match col[i] {
        case IntV(n) => cells := cells + [Some(n)];
        case DecV(u, scale) =>
          if scale != 0 {
            return Err;
          }
          cells := cells + [Some(Wrap64(u))];
        case Null => cells := cells + [None];
        case _ => return Err;
      }
    }
    return Ok(IntColumn(cells));
  }

  /** A decimal without decimals becomes the 64-bit integer that differs from it by a multiple of 2^64. */
  lemma IntCell(u: I128)
    ensures Conform(Int64, DecV(u, 0)).Ok?
    ensures var cell := Conform(Int64, DecV(u, 0)).value;
            cell.IntV? && (u - cell.n) % 0x1_0000_0000_0000_0000 == 0 && (I64_MIN <= u <= I64_MAX ==> cell.n == u)
    ensures forall scale: nat {:trigger DecV(u, scale)} :: scale > 0 ==> Conform(Int64, DecV(u, scale)).Err?
  {
  }

  method BuildBools(col: seq<Value>) returns (r: Result<Column>)
    ensures r.Ok? <==> AllConform(Boolean, col)
    ensures r.Ok? ==> Shows(r.value, Boolean, col)
  {
    var cells: seq<Option<bool>> := [];
    for i := 0 to |col|
      invariant |cells| == i && AllConform(Boolean, col[..i])
      invariant forall k :: 0 <= k < i ==>
        if cells[k].None? then col[k].Null? else col[k] == BoolV(cells[k].value)
    {
      match col[i] {
        case BoolV(b) => cells := cells + [Some(b)];
        case Null => cells := cells + [None];
        case _ => return Err;
      }
    }
    return Ok(BoolColumn(cells));
  }

  method BuildDecimals(precision: nat, scale: int, col: seq<Value>) returns (r: Result<Column>)
    ensures r.Ok? <==>
      1 <= precision <= 38 && scale <= 38 && (scale > 0 ==> scale <= precision) &&
      AllConform(Decimal128(precision, scale), col)
    ensures r.Ok? ==> Shows(r.value, Decimal128(precision, scale), col)
    ensures r.Ok? ==>
      r.value.DecimalColumn? && r.value.scale == scale && |r.value.unscaled| == |col| &&
      forall k, t: nat :: 0 <= k < |col| && ReadAs(scale, t) ==>
        var cell := r.value.unscaled[k];
        (cell.None? <==> col[k].Null?) && (cell.Some? ==> Scaled(col[k], cell.value, t))
  {
    hide Leaf.Rescale, AsU8, Scaled;
    var cells: seq<Option<I128>> := [];
    for i := 0 to |col|
      invariant |cells| == i && AllConform(Decimal128(precision, scale), col[..i])
      invariant forall k :: 0 <= k < i ==>
        if cells[k].None? then col[k].Null?
        else !col[k].Null? && ConformDecimal(col[k], scale) == Ok(cells[k].value)
    {
      if col[i].Null? {
        cells := cells + [None];
      } else {
        var u := ConformDecimal(col[i], scale);
        if u.Err? {
          return Err;
        }
        cells := cells + [Some(u.value)];
      }
    }
    forall k, t: nat | 0 <= k < |col| && ReadAs(scale, t) && cells[k].Some?
      ensures Scaled(col[k], cells[k].value, t)
    {
      ConformScaled(col[k], scale, t);
    }
    if !Supported(Decimal128(precision, scale)) {
      return Err;
    }
    return Ok(DecimalColumn(scale, cells));
  }

  // ---------------------------------------------------------------- lists

  lemma {:induction false} FlatPrefix(col: seq<Value>, r: nat)
    requires r <= |col|
    ensures Flat(col[..r]) <= Flat(col)
    decreases |col|
  {
    if r < |col| {
      var front := col[..|col| - 1];
      FlatPrefix(front, r);
      assert front[..r] == col[..r];
    } else {
      assert col[..r] == col;
    }
  }

  lemma FlatSnoc(col: seq<Value>, r: nat)
    requires r < |col|
    ensures Flat(col[..r + 1]) == Flat(col[..r]) + (if col[r].ListV? then col[r].items else [])
  {
    assert col[..r + 1][..r] == col[..r];
  }

  /** The stretch of the flat column between two row starts holds exactly that row's items. */
  lemma FlatStretch(col: seq<Value>, r: nat)
    requires r < |col| && col[r].ListV?
    ensures |Flat(col[..r])| + |col[r].items| == |Flat(col[..r + 1])| <= |Flat(col)|
    ensures forall i :: 0 <= i < |col[r].items| ==> Flat(col)[|Flat(col[..r])| + i] == col[r].items[i]
  {
    hide Flat;
    FlatSnoc(col, r);
    FlatPrefix(col, r + 1);
    StretchOfPrefix(Flat(col[..r]), col[r].items, Flat(col));
  }

  lemma StretchOfPrefix(head: seq<Value>, items: seq<Value>, whole: seq<Value>)
    requires head + items <= whole
    ensures forall i :: 0 <= i < |items| ==> whole[|head| + i] == items[i]
  {
    forall i | 0 <= i < |items|
      ensures whole[|head| + i] == items[i]
    {
      assert (head + items)[|head| + i] == items[i];
    }
  }

  /** Every flat item comes from some row. */
  lemma {:induction false} FlatOrigin(col: seq<Value>, j: nat) returns (r: nat, i: nat)
    requires j < |Flat(col)|
    ensures r < |col| && col[r].ListV? && i < |col[r].items| && col[r].items[i] == Flat(col)[j]
    decreases |col|
  {
    var front := col[..|col| - 1];
    if j < |Flat(front)| {
      r, i := FlatOrigin(front, j);
    } else {
      r, i := |col| - 1, j - |Flat(front)|;
    }
  }

  predicate ListsOnly(col: seq<Value>) {
    forall r :: 0 <= r < |col| ==> col[r].ListV? || col[r].Null?
  }

  /** What a list row needs, and what it becomes. */
  lemma ListRow(item: DataType, v: Value)
    ensures Conform(List(item), v).Ok? <==> v.Null? || (v.ListV? && AllConform(item, v.items))
    ensures v.ListV? && AllConform(item, v.items) ==>
      Conform(List(item), v) == Ok(ListV(seq(|v.items|, i requires 0 <= i < |v.items| => Conform(item, v.items[i]).value)))
  {
  }

  lemma ListsConform(item: DataType, col: seq<Value>)
    ensures AllConform(List(item), col) <==> ListsOnly(col) && AllConform(item, Flat(col))
  {
    hide Conform, Flat;
    forall r | 0 <= r < |col|
      ensures Conform(List(item), col[r]).Ok? <==> col[r].Null? || (col[r].ListV? && AllConform(item, col[r].items))
    {
      ListRow(item, col[r]);
    }
    if AllConform(List(item), col) {
      forall j | 0 <= j < |Flat(col)|
        ensures Conform(item, Flat(col)[j]).Ok?
      {
        var r, i := FlatOrigin(col, j);
        assert Conform(List(item), col[r]).Ok?;
      }
    }
    if ListsOnly(col) && AllConform(item, Flat(col)) {
      forall r | 0 <= r < |col|
        ensures Conform(List(item), col[r]).Ok?
      {
        if col[r].ListV? { ItemsConform(item, col, r); }
      }
    }
  }

  lemma ItemsConform(item: DataType, col: seq<Value>, r: nat)
    requires r < |col| && col[r].ListV? && AllConform(item, Flat(col))
    ensures AllConform(item, col[r].items)
  {
    hide Conform, Flat;
    FlatStretch(col, r);
    forall i | 0 <= i < |col[r].items|
      ensures Conform(item, col[r].items[i]).Ok?
    {
      assert Flat(col)[|Flat(col[..r])| + i] == col[r].items[i];
    }
  }

  /** Row starts: entry `r` is the number of items before row `r`. */
  predicate StartsOf(offsets: seq<int>, col: seq<Value>) {
    |offsets| == |col| + 1 && forall r :: 0 <= r <= |col| ==> offsets[r] == |Flat(col[..r])|
  }

  lemma StartsSnoc(offsets: seq<int>, col: seq<Value>, n: nat, total: int)
    requires n < |col| && StartsOf(offsets, col[..n]) && total == |Flat(col[..n + 1])|
    ensures StartsOf(offsets + [total], col[..n + 1])
  {
    var next := offsets + [total];
    forall r | 0 <= r <= n + 1
      ensures next[r] == |Flat(col[..n + 1][..r])|
    {
      assert col[..n + 1][..r] == col[..r];
      if r <= n { assert col[..n][..r] == col[..r]; }
    }
  }

  lemma ListShows(item: DataType, col: seq<Value>, offsets: seq<int>, child: Column, present: seq<bool>)
    requires ListsOnly(col) && StartsOf(offsets, col) && Shows(child, item, Flat(col))
    requires |present| == |col| && forall r :: 0 <= r < |col| ==> present[r] == col[r].ListV?
    ensures Shows(ListColumn(offsets, child, present), List(item), col)
  {
    hide Conform, Flat, Cell;
    var c := ListColumn(offsets, child, present);
    forall r | 0 <= r < |col|
      ensures Stretch(offsets, r, Length(child))
    {
      FlatSnoc(col, r);
      FlatPrefix(col, r + 1);
    }
    assert WellFormed(c);
    forall r | 0 <= r < |col|
      ensures Conform(List(item), col[r]) == Ok(Cell(c, r))
    {
      if col[r].ListV? {
        RowShows(item, col, c, r);
      } else {
        NullRow(item, c, r);
      }
    }
  }

  lemma NullRow(item: DataType, c: Column, r: nat)
    requires c.ListColumn? && WellFormed(c) && r < Length(c) && !c.present[r]
    ensures Conform(List(item), Null) == Ok(Cell(c, r))
  {
  }

  lemma RowShows(item: DataType, col: seq<Value>, c: Column, r: nat)
    requires c.ListColumn? && WellFormed(c) && r < Length(c) == |col| && c.present[r] && col[r].ListV?
    requires StartsOf(c.offsets, col) && Shows(c.child, item, Flat(col))
    ensures Conform(List(item), col[r]) == Ok(Cell(c, r))
  {
    hide Conform, Flat;
    var items, start := col[r].items, c.offsets[r];
    FlatStretch(col, r);
    forall i | 0 <= i < |items|
      ensures Conform(item, items[i]) == Ok(Cell(c.child, start + i))
    {
      assert Flat(col)[start + i] == items[i];
    }
    ListRow(item, col[r]);
    assert Conform(List(item), col[r]).value.items == Cell(c, r).items;
  }

  predicate Monotone(offsets: seq<int>) {
    offsets != [] && offsets[0] >= 0 && forall i :: 0 < i < |offsets| ==> offsets[i - 1] <= offsets[i]
  }

  lemma {:induction false} MonotoneBounds(offsets: seq<int>, i: nat)
    requires Monotone(offsets) && i < |offsets|
    ensures 0 <= offsets[i] <= offsets[|offsets| - 1]
    decreases |offsets| - i
  {
    if i + 1 < |offsets| { MonotoneBounds(offsets, i + 1); }
    LowerBound(offsets, i);
  }

  lemma {:induction false} LowerBound(offsets: seq<int>, i: nat)
    requires Monotone(offsets) && i < |offsets|
    ensures 0 <= offsets[i]
  {
    if i > 0 { LowerBound(offsets, i - 1); }
  }

  /** `build_list`: items end to end, 32-bit row starts, and which rows are present. */
  method BuildList(item: DataType, col: seq<Value>) returns (r: Result<Column>)
    ensures r.Ok? ==> WellFormed(r.value) && Length(r.value) == |col|
    ensures Fits(List(item), col) ==> (r.Ok? <==> Supported(List(item)) && AllConform(List(item), col))
    ensures Fits(List(item), col) && r.Ok? ==> Shows(r.value, List(item), col)
    decreases item, 1
  {
    hide Flat, Conform, Shows, WellFormed;
    var flat: seq<Value>, offsets: seq<int>, present: seq<bool>, total := [], [0], [], 0;
    ghost var fits := |Flat(col)| <= I32_MAX;
    NoRows();
    ListsConform(item, col);
    assert col[..0] == [];
    for i := 0 to |col|
      invariant flat == Flat(col[..i]) && ListsOnly(col[..i])
      invariant |offsets| == i + 1 && |present| == i
      invariant forall k :: 0 <= k < i ==> present[k] == col[k].ListV?
      invariant fits ==> total == |flat| && StartsOf(offsets, col[..i])
    {
      FlatSnoc(col, i);
      FlatPrefix(col, i + 1);
      match col[i] {
        case ListV(items) =>
          flat := flat + items;
          total := Wrap32(total + Wrap32(|items|));
          present := present + [true];
        case Null =>
          assert flat + [] == flat;
          present := present + [false];
        case _ => return Err;
      }
      if fits { StartsSnoc(offsets, col, i, total); }
      offsets := offsets + [total];
    }
    assert col[..|col|] == col;
    var child := BuildArray(item, flat);
    if child.Err? {
      return Err;
    }
    if fits { StartsMonotone(offsets, col); }
    if !Monotone(offsets) || offsets[|offsets| - 1] > Length(child.value) {
      return Err;
    }
    r := Ok(ListColumn(offsets, child.value, present));
    OffsetsInside(offsets, child.value, present);
    if Fits(List(item), col) { ListShows(item, col, offsets, child.value, present); }
  }

  lemma NoRows()
    ensures Flat([]) == [] && StartsOf([0], [])
  {
  }

  lemma StartsMonotone(offsets: seq<int>, col: seq<Value>)
    requires StartsOf(offsets, col)
    ensures Monotone(offsets) && offsets[|offsets| - 1] == |Flat(col)|
  {
    assert col[..|col|] == col;
    forall i | 0 < i < |offsets|
      ensures offsets[i - 1] <= offsets[i]
    {
      FlatSnoc(col, i - 1);
    }
  }

  lemma OffsetsInside(offsets: seq<int>, child: Column, present: seq<bool>)
    requires Monotone(offsets) && offsets[|offsets| - 1] <= Length(child) && WellFormed(child)
    requires |offsets| == |present| + 1
    ensures WellFormed(ListColumn(offsets, child, present))
  {
    forall i | 0 <= i < |present|
      ensures Stretch(offsets, i, Length(child))
    {
      MonotoneBounds(offsets, i);
      MonotoneBounds(offsets, i + 1);
    }
  }

  // ---------------------------------------------------------------- structs

  predicate StructsOnly(col: seq<Value>) {
    forall r :: 0 <= r < |col| ==> col[r].StructV? || col[r].Null?
  }

  lemma StructsConform(fields: seq<ColumnField>, col: seq<Value>)
    ensures AllConform(Struct(fields), col) <==>
              StructsOnly(col) &&
              forall i :: 0 <= i < |fields| ==> AllConform(fields[i].ty, FieldColumn(fields[i].name, col))
  {
    if AllConform(Struct(fields), col) {
      forall r | 0 <= r < |col|
        ensures col[r].StructV? || col[r].Null?
      {
        assert Conform(Struct(fields), col[r]).Ok?;
      }
      forall i, r | 0 <= i < |fields| && 0 <= r < |col|
        ensures Conform(fields[i].ty, FieldColumn(fields[i].name, col)[r]).Ok?
      {
        assert Conform(Struct(fields), col[r]).Ok?;
      }
    }
    if StructsOnly(col) &&
       forall i :: 0 <= i < |fields| ==> AllConform(fields[i].ty, FieldColumn(fields[i].name, col)) {
      forall r | 0 <= r < |col|
        ensures Conform(Struct(fields), col[r]).Ok?
      {
        if col[r].StructV? {
          forall i | 0 <= i < |fields|
            ensures Conform(fields[i].ty, Lookup(col[r].pairs, fields[i].name)).Ok?
          {
            assert FieldColumn(fields[i].name, col)[r] == Lookup(col[r].pairs, fields[i].name);
          }
        }
      }
    }
  }

  lemma StructShows(fields: seq<ColumnField>, col: seq<Value>, columns: seq<Column>, valid: seq<bool>)
    requires StructsOnly(col) && |columns| == |fields|
    requires forall i :: 0 <= i < |fields| ==> Shows(columns[i], fields[i].ty, FieldColumn(fields[i].name, col))
    requires |valid| == |col| && forall r :: 0 <= r < |col| ==> valid[r] == col[r].StructV?
    ensures Shows(StructColumn(fields, columns, valid), Struct(fields), col)
  {
    var c := StructColumn(fields, columns, valid);
    assert WellFormed(c);
    forall r | 0 <= r < |col|
      ensures Conform(Struct(fields), col[r]) == Ok(Cell(c, r))
    {
      if col[r].StructV? {
        forall i | 0 <= i < |fields|
          ensures Conform(fields[i].ty, Lookup(col[r].pairs, fields[i].name)) == Ok(Cell(columns[i], r))
        {
          assert FieldColumn(fields[i].name, col)[r] == Lookup(col[r].pairs, fields[i].name);
        }
        assert ConformFields(fields, col[r].pairs).value == Cell(c, r).pairs;
      }
    }
  }

  lemma FieldColumnSnoc(name: string, col: seq<Value>, r: nat)
    requires r < |col|
    ensures FieldColumn(name, col[..r + 1]) ==
              FieldColumn(name, col[..r]) + [if col[r].StructV? then Lookup(col[r].pairs, name) else Null]
  {
  }

  /** The child columns after `n` rows, of which the last one is filled in for the first `i` fields only. */
  predicate Pushed(children: seq<seq<Value>>, fields: seq<ColumnField>, col: seq<Value>, n: nat, i: nat)
    requires n < |col| && i <= |fields|
  {
    |children| == |fields| &&
    (forall k :: 0 <= k < i ==> children[k] == FieldColumn(fields[k].name, col[..n + 1])) &&
    (forall k :: i <= k < |fields| ==> children[k] == FieldColumn(fields[k].name, col[..n]))
  }

  /** `build_struct`: one child column per field, looked up by name ignoring case. */
  method BuildStruct(fields: seq<ColumnField>, col: seq<Value>) returns (r: Result<Column>)
    ensures r.Ok? ==> WellFormed(r.value) && Length(r.value) == |col|
    ensures Fits(Struct(fields), col) ==> (r.Ok? <==> Supported(Struct(fields)) && AllConform(Struct(fields), col))
    ensures Fits(Struct(fields), col) && r.Ok? ==> Shows(r.value, Struct(fields), col)
    decreases fields, 1
  {
    hide Conform, Shows, WellFormed, FieldColumn;
    StructsConform(fields, col);
    var children: seq<seq<Value>> := seq(|fields|, _ => []);
    var valid: seq<bool> := [];
    for n := 0 to |col|
      invariant |children| == |fields| && |valid| == n && StructsOnly(col[..n])
      invariant forall k :: 0 <= k < |fields| ==> children[k] == FieldColumn(fields[k].name, col[..n])
      invariant forall k :: 0 <= k < n ==> valid[k] == col[k].StructV?
    {
      var v := col[n];
      if !v.StructV? && !v.Null? {
        return Err;
      }
      for i := 0 to |fields|
        invariant Pushed(children, fields, col, n, i)
      {
        FieldColumnSnoc(fields[i].name, col, n);
        var sub := if v.StructV? then Lookup(v.pairs, fields[i].name) else Null;
        children := children[i := children[i] + [sub]];
      }
      valid := valid + [v.StructV?];
    }
    assert col[..|col|] == col;
    ghost var fits := Fits(Struct(fields), col);
    var columns: seq<Column> := [];
    for i := 0 to |fields|
      invariant |columns| == i
      invariant forall k :: 0 <= k < i ==> WellFormed(columns[k]) && Length(columns[k]) == |col|
      invariant fits ==> forall k :: 0 <= k < i ==>
        Supported(fields[k].ty) && AllConform(fields[k].ty, children[k]) && Shows(columns[k], fields[k].ty, children[k])
    {
      var built := BuildArray(fields[i].ty, children[i]);
      if built.Err? {
        return Err;
      }
      columns := columns + [built.value];
    }
    if fields == [] {
      return Err;
    }
    r := Ok(StructColumn(fields, columns, valid));
    ColumnsWellFormed(fields, columns, valid);
    if fits { StructShows(fields, col, columns, valid); }
  }

  lemma ColumnsWellFormed(fields: seq<ColumnField>, columns: seq<Column>, valid: seq<bool>)
    requires |columns| == |fields|
    requires forall i :: 0 <= i < |columns| ==> WellFormed(columns[i]) && Length(columns[i]) == |valid|
    ensures WellFormed(StructColumn(fields, columns, valid))
  {
  }

  // ---------------------------------------------------------------- when reading back is exact

  /** A type in which every decimal scale is non-negative and no struct has two fields of one name. */
  predicate Plain(dt: DataType) {
    match dt
    case Decimal128(_, scale) => 0 <= scale < 128
    case List(item) => Plain(item)
    case Struct(fields) =>
      (forall i, j :: 0 <= i < j < |fields| ==> !Strings.SameName(fields[i].name, fields[j].name)) &&
      (forall i :: 0 <= i < |fields| ==> Plain(fields[i].ty))
    case _ => true
  }

  /** A value of exactly the column's type: Null anywhere, structs with all their fields in order. */
  predicate WellTyped(dt: DataType, v: Value)
    decreases dt
  {
    v.Null? ||
    match dt
    case Utf8 => v.StrV?
    case Int64 => v.IntV?
    case Boolean => v.BoolV?
    case Decimal128(_, scale) => v.DecV? && v.scale == scale
    case List(item) => v.ListV? && forall i :: 0 <= i < |v.items| ==> WellTyped(item, v.items[i])
    case Struct(fields) =>
      v.StructV? && |v.pairs| == |fields| &&
      forall i :: 0 <= i < |fields| ==> v.pairs[i].0 == fields[i].name && WellTyped(fields[i].ty, v.pairs[i].1)
  }

  /** Shredding gives a value back unchanged exactly when it is of the column's type. */
  lemma {:induction false} ExactWhenTyped(dt: DataType, v: Value)
    requires Plain(dt)
    ensures Conform(dt, v) == Ok(v) <==> WellTyped(dt, v)
    decreases dt, 0
  {
    hide Leaf.Rescale;
    if !v.Null? {
      match dt {
        case Decimal128(_, scale) => DecimalExact(v, scale);
        case List(item) => ItemsExact(item, v);
        case Struct(fields) => FieldsExact(fields, v);
        case Utf8 =>
        case Int64 =>
        case Boolean =>
      }
    }
  }

  lemma DecimalExact(v: Value, scale: int)
    requires 0 <= scale < 128 && !v.Null?
    ensures (exists u: I128 :: ConformDecimal(v, scale) == Ok(u) && v == DecV(u, scale))
       <==> v.DecV? && v.scale == scale
  {
  }

  lemma {:induction false} ItemsExact(item: DataType, v: Value)
    requires Plain(item) && !v.Null?
    ensures Conform(List(item), v) == Ok(v) <==> WellTyped(List(item), v)
    decreases item, 1
  {
    hide Conform, WellTyped;
    ListRow(item, v);
    ListTyped(item, v);
    if v.ListV? {
      forall i | 0 <= i < |v.items|
        ensures Conform(item, v.items[i]) == Ok(v.items[i]) <==> WellTyped(item, v.items[i])
      {
        ExactWhenTyped(item, v.items[i]);
      }
      if AllConform(item, v.items) {
        var back := seq(|v.items|, i requires 0 <= i < |v.items| => Conform(item, v.items[i]).value);
        assert back == v.items <==> forall i :: 0 <= i < |v.items| ==> back[i] == v.items[i];
      }
    }
  }

  lemma ListTyped(item: DataType, v: Value)
    requires !v.Null?
    ensures WellTyped(List(item), v) <==> v.ListV? && forall i :: 0 <= i < |v.items| ==> WellTyped(item, v.items[i])
  {
  }

  lemma {:induction false} LookupAt(pairs: Pairs, fields: seq<ColumnField>, i: nat)
    requires i < |pairs| == |fields|
    requires forall k :: 0 <= k < |fields| ==> pairs[k].0 == fields[k].name
    requires forall j, k :: 0 <= j < k < |fields| ==> !Strings.SameName(fields[j].name, fields[k].name)
    ensures Lookup(pairs, fields[i].name) == pairs[i].1
  {
    if i > 0 {
      assert pairs[1..][i - 1] == pairs[i];
      LookupAt(pairs[1..], fields[1..], i - 1);
    }
  }

  lemma {:induction false} FieldsExact(fields: seq<ColumnField>, v: Value)
    requires Plain(Struct(fields)) && !v.Null?
    ensures Conform(Struct(fields), v) == Ok(v) <==> WellTyped(Struct(fields), v)
    decreases fields, 1
  {
    hide WellTyped;
    StructTyped(fields, v);
    if v.StructV? && |v.pairs| == |fields| && forall k :: 0 <= k < |fields| ==> v.pairs[k].0 == fields[k].name {
      forall i | 0 <= i < |fields|
        ensures Lookup(v.pairs, fields[i].name) == v.pairs[i].1
        ensures Conform(fields[i].ty, v.pairs[i].1) == Ok(v.pairs[i].1) <==> WellTyped(fields[i].ty, v.pairs[i].1)
      {
        LookupAt(v.pairs, fields, i);
        ExactWhenTyped(fields[i].ty, v.pairs[i].1);
      }
      var back := ConformFields(fields, v.pairs);
      if back.Ok? {
        assert back.value == v.pairs <==> forall i :: 0 <= i < |fields| ==> back.value[i].1 == v.pairs[i].1;
      }
    }
  }

  lemma StructTyped(fields: seq<ColumnField>, v: Value)
    requires !v.Null?
    ensures WellTyped(Struct(fields), v) <==>
              v.StructV? && |v.pairs| == |fields| &&
              (forall k :: 0 <= k < |fields| ==> v.pairs[k].0 == fields[k].name) &&
              (forall k :: 0 <= k < |fields| ==> WellTyped(fields[k].ty, v.pairs[k].1))
  {
  }

  /** Every decimal scale is one a field can declare. */
  predicate ScalesInRange(dt: DataType) {
    match dt
    case Decimal128(_, scale) => 0 <= scale < 128
    case List(item) => ScalesInRange(item)
    case Struct(fields) => forall i :: 0 <= i < |fields| ==> ScalesInRange(fields[i].ty)
    case _ => true
  }

  /** Some value of the type other than Null. */
  function Sample(dt: DataType): (v: Value)
    requires ScalesInRange(dt)
    ensures !v.Null? && WellTyped(dt, v)
  {
    match dt
    case Utf8 => StrV("")
    case Int64 => IntV(0)
    case Boolean => BoolV(false)
    case Decimal128(_, scale) => DecV(0, scale)
    case List(_) => ListV([])
    case Struct(fields) => OnlyField(fields, 0, Null)
  }

  /** A struct whose field `i` has a value and whose other fields are Null. */
  function OnlyField(fields: seq<ColumnField>, i: nat, v: Value): (w: Value)
    ensures w.StructV? && |w.pairs| == |fields|
    ensures forall k :: 0 <= k < |fields| ==> w.pairs[k] == (fields[k].name, if k == i then v else Null)
    ensures (i < |fields| ==> WellTyped(fields[i].ty, v)) ==> WellTyped(Struct(fields), w)
  {
    StructV(seq(|fields|, k requires 0 <= k < |fields| => (fields[k].name, if k == i then v else Null)))
  }

  lemma {:induction false} LookupEarlier(pairs: Pairs, name: string, i: nat)
    requires i < |pairs| && Strings.SameName(pairs[i].0, name)
    requires forall k :: 0 <= k <= i ==> pairs[k].1 == Null
    ensures Lookup(pairs, name) == Null
  {
    if !Strings.SameName(pairs[0].0, name) { LookupEarlier(pairs[1..], name, i - 1); }
  }

  /** A struct row that conforms to itself has each of its fields' values found by name. */
  lemma FieldFound(fields: seq<ColumnField>, w: Value, i: nat)
    requires w.StructV? && i < |fields| == |w.pairs|
    requires Conform(Struct(fields), w) == Ok(w)
    ensures Conform(fields[i].ty, Lookup(w.pairs, fields[i].name)) == Ok(w.pairs[i].1)
  {
    assert ConformFields(fields, w.pairs) == Ok(w.pairs);
  }

  /** Two fields of one name both read the first value: a value of the second one alone is lost. */
  lemma RepeatedNameCollapses(fields: seq<ColumnField>, i: nat, j: nat, v: Value)
    requires i < j < |fields| && Strings.SameName(fields[i].name, fields[j].name) && !v.Null?
    ensures Conform(Struct(fields), OnlyField(fields, j, v)) != Ok(OnlyField(fields, j, v))
  {
    var w := OnlyField(fields, j, v);
    LookupEarlier(w.pairs, fields[j].name, i);
    if Conform(Struct(fields), w) == Ok(w) { FieldFound(fields, w, j); }
  }

  /** A type that is not plain has a value of its own that does not come back. */
  lemma {:induction false} NotPlainLoses(dt: DataType) returns (v: Value)
    requires ScalesInRange(dt) && !Plain(dt)
    ensures WellTyped(dt, v) && Conform(dt, v) != Ok(v)
    decreases dt
  {
    hide Conform, WellTyped;
    if dt.List? {
      v := NotPlainLoses(dt.item);
      ListLoses(dt.item, v);
      v := ListV([v]);
    } else {
      v := StructLoses(dt.fields);
    }
  }

  lemma ListLoses(item: DataType, v: Value)
    requires WellTyped(item, v) && Conform(item, v) != Ok(v)
    ensures WellTyped(List(item), ListV([v])) && Conform(List(item), ListV([v])) != Ok(ListV([v]))
  {
    var items := [v];
    assert items[0] == v;
    var back := ConformItems(item, items);
    if back.Ok? { assert Conform(item, v) == Ok(back.value[0]); }
  }

  lemma {:induction false} StructLoses(fields: seq<ColumnField>) returns (v: Value)
    requires ScalesInRange(Struct(fields)) && !Plain(Struct(fields))
    ensures WellTyped(Struct(fields), v) && Conform(Struct(fields), v) != Ok(v)
    decreases fields, 0
  {
    hide Conform, WellTyped;
    if i, j :| 0 <= i < j < |fields| && Strings.SameName(fields[i].name, fields[j].name) {
      v := OnlyField(fields, j, Sample(fields[j].ty));
      RepeatedNameCollapses(fields, i, j, Sample(fields[j].ty));
    } else {
      var i :| 0 <= i < |fields| && !Plain(fields[i].ty);
      var inner := NotPlainLoses(fields[i].ty);
      v := OnlyField(fields, i, inner);
      LookupAt(v.pairs, fields, i);
      if Conform(Struct(fields), v) == Ok(v) { FieldFound(fields, v, i); }
    }
  }

  /** Every value of a type comes back unchanged exactly when no struct in it repeats a field name. */
  lemma PlainExactly(dt: DataType)
    requires ScalesInRange(dt)
    ensures (forall v :: WellTyped(dt, v) ==> Conform(dt, v) == Ok(v)) <==> Plain(dt)
  {
    hide Conform, WellTyped, Plain;
    if Plain(dt) {
      forall v | WellTyped(dt, v)
        ensures Conform(dt, v) == Ok(v)
      {
        ExactWhenTyped(dt, v);
      }
    } else {
      var v := NotPlainLoses(dt);
    }
  }

  // ---------------------------------------------------------------- sparse unions

  const MAX_VARIANTS: nat := 127

  /** A tag and the struct type of its record layout. */
  datatype Variant = Variant(tag: string, ty: DataType)

  datatype UnionColumn = UnionColumn(variants: seq<Variant>, typeIds: seq<int>, children: seq<Column>)

  type Row = (nat, Value)

  /** The child column of one variant: its own rows' values, Null on the others. */
  function VariantColumn(k: nat, rows: seq<Row>): (out: seq<Value>)
    ensures |out| == |rows|
  {
    seq(|rows|, r requires 0 <= r < |rows| => if rows[r].0 == k then rows[r].1 else Null)
  }

  predicate UnionFits(variants: seq<Variant>, rows: seq<Row>) {
    forall k :: 0 <= k < |variants| ==> Fits(variants[k].ty, VariantColumn(k, rows))
  }

  predicate UnionConforms(variants: seq<Variant>, rows: seq<Row>)
    requires forall r :: 0 <= r < |rows| ==> rows[r].0 < |variants|
  {
    forall r :: 0 <= r < |rows| ==> Conform(variants[rows[r].0].ty, rows[r].1).Ok?
  }

  lemma VariantSnoc(k: nat, rows: seq<Row>, n: nat)
    requires n < |rows|
    ensures VariantColumn(k, rows[..n + 1]) ==
              VariantColumn(k, rows[..n]) + [if rows[n].0 == k then rows[n].1 else Null]
  {
  }

  /** `build_union_array`: a slot in every child for every row, the value in the active one. */
  method BuildUnion(variants: seq<Variant>, rows: seq<Row>) returns (r: Result<UnionColumn>)
    requires |variants| <= MAX_VARIANTS
    requires forall i :: 0 <= i < |rows| ==> rows[i].0 < |variants|
    ensures UnionFits(variants, rows) ==>
      (r.Ok? <==> (forall k :: 0 <= k < |variants| ==> Supported(variants[k].ty)) && UnionConforms(variants, rows))
    ensures r.Ok? ==>
      r.value.variants == variants && |r.value.typeIds| == |rows| && |r.value.children| == |variants| &&
      (forall i :: 0 <= i < |rows| ==> r.value.typeIds[i] == rows[i].0) &&
      (forall k :: 0 <= k < |variants| ==> WellFormed(r.value.children[k]) && Length(r.value.children[k]) == |rows|)
    ensures UnionFits(variants, rows) && r.Ok? ==>
      forall i :: 0 <= i < |rows| ==> Conform(variants[rows[i].0].ty, rows[i].1) == Ok(Cell(r.value.children[rows[i].0], i))
  {
    hide Conform, Cell, WellFormed, Fits, Supported;
    var typeIds: seq<int>, perVariant: seq<seq<Value>> := [], seq(|variants|, _ => []);
    for n := 0 to |rows|
      invariant |typeIds| == n && |perVariant| == |variants|
      invariant forall i :: 0 <= i < n ==> typeIds[i] == rows[i].0
      invariant forall k :: 0 <= k < |variants| ==> perVariant[k] == VariantColumn(k, rows[..n])
    {
      var (active, val) := rows[n];
      typeIds := typeIds + [active];
      perVariant := seq(|variants|, k requires 0 <= k < |variants| == |perVariant| => perVariant[k] + [Null]);
      var slots := perVariant[active];
      perVariant := perVariant[active := slots[|slots| - 1 := val]];
      forall k | 0 <= k < |variants|
        ensures perVariant[k] == VariantColumn(k, rows[..n + 1])
      {
        VariantSnoc(k, rows, n);
      }
    }
    assert rows[..|rows|] == rows;
    ghost var fits := UnionFits(variants, rows);
    UnionColumns(variants, rows);
    var children: seq<Column> := [];
    for k := 0 to |variants|
      invariant |children| == k
      invariant forall j :: 0 <= j < k ==> WellFormed(children[j]) && Length(children[j]) == |rows|
      invariant fits ==> forall j :: 0 <= j < k ==>
        Supported(variants[j].ty) && AllConform(variants[j].ty, perVariant[j]) &&
        Shows(children[j], variants[j].ty, perVariant[j])
    {
      var built := BuildArray(variants[k].ty, perVariant[k]);
      if built.Err? {
        return Err;
      }
      children := children + [built.value];
    }
    if fits {
      forall i | 0 <= i < |rows|
        ensures Conform(variants[rows[i].0].ty, rows[i].1) == Ok(Cell(children[rows[i].0], i))
      {
        var k := rows[i].0;
        assert Shows(children[k], variants[k].ty, perVariant[k]);
        assert VariantColumn(k, rows)[i] == rows[i].1;
      }
    }
    return Ok(UnionColumn(variants, typeIds, children));
  }

  lemma UnionColumns(variants: seq<Variant>, rows: seq<Row>)
    requires forall i :: 0 <= i < |rows| ==> rows[i].0 < |variants|
    ensures UnionConforms(variants, rows) <==>
              forall k :: 0 <= k < |variants| ==> AllConform(variants[k].ty, VariantColumn(k, rows))
  {
    hide Conform;
    if UnionConforms(variants, rows) {
      forall k, r | 0 <= k < |variants| && 0 <= r < |rows|
        ensures Conform(variants[k].ty, VariantColumn(k, rows)[r]).Ok?
      {
        NullConforms(variants[k].ty);
      }
    }
    if forall k :: 0 <= k < |variants| ==> AllConform(variants[k].ty, VariantColumn(k, rows)) {
      forall r | 0 <= r < |rows|
        ensures Conform(variants[rows[r].0].ty, rows[r].1).Ok?
      {
        assert VariantColumn(rows[r].0, rows)[r] == rows[r].1;
      }
    }
  }

  lemma NullConforms(dt: DataType)
    ensures Conform(dt, Null) == Ok(Null)
  {
  }

  /** The variant whose position is the type id. */
  function TagOf(variants: seq<Variant>, typeId: int): Option<string> {
    if 0 <= typeId < |variants| then Some(variants[typeId].tag) else None
  }

  /** `union_at`: the tag and fields of one row. */
  method UnionAt(u: UnionColumn, row: nat) returns (r: Result<(string, Pairs)>)
    requires |u.children| == |u.variants| && row < |u.typeIds|
    requires forall k :: 0 <= k < |u.children| ==> WellFormed(u.children[k]) && Length(u.children[k]) == |u.typeIds|
    ensures r.Ok? <==>
      TagOf(u.variants, u.typeIds[row]).Some? &&
      (Cell(u.children[u.typeIds[row]], row).StructV? || Cell(u.children[u.typeIds[row]], row).Null?)
    ensures r.Ok? ==>
      var v := Cell(u.children[u.typeIds[row]], row);
      Some(r.value.0) == TagOf(u.variants, u.typeIds[row]) && r.value.1 == if v.StructV? then v.pairs else []
  {
    var typeId := u.typeIds[row];
    var tag := TagOf(u.variants, typeId);
    if tag.None? {
      return Err;
    }
    var v := ValueAt(u.children[typeId], row);
    match v {
      case StructV(pairs) => return Ok((tag.value, pairs));
      case Null => return Ok((tag.value, []));
      case _ => return Err;
    }
  }

  /**
   A union column built from decoded rows gives every row its tag and fields back, provided the rows
   are of their variants' types.
   */
  method UnionRoundTrip(variants: seq<Variant>, rows: seq<Row>) returns (back: seq<(string, Pairs)>)
    requires |variants| <= MAX_VARIANTS
    requires forall i :: 0 <= i < |rows| ==> rows[i].0 < |variants| && rows[i].1.StructV?
    requires forall k :: 0 <= k < |variants| ==> Plain(variants[k].ty) && Supported(variants[k].ty)
    requires forall i :: 0 <= i < |rows| ==> WellTyped(variants[rows[i].0].ty, rows[i].1)
    requires UnionFits(variants, rows)
    ensures |back| == |rows|
    ensures forall i :: 0 <= i < |rows| ==> back[i] == (variants[rows[i].0].tag, rows[i].1.pairs)
  {
    hide Conform, Cell, WellFormed, Fits, Supported, WellTyped;
    forall i | 0 <= i < |rows|
      ensures Conform(variants[rows[i].0].ty, rows[i].1) == Ok(rows[i].1)
    {
      ExactWhenTyped(variants[rows[i].0].ty, rows[i].1);
    }
    var u := BuildUnion(variants, rows);
    back := [];
    for i := 0 to |rows|
      invariant |back| == i
      invariant forall k :: 0 <= k < i ==> back[k] == (variants[rows[k].0].tag, rows[k].1.pairs)
    {
      var one := UnionAt(u.value, i);
      back := back + [one.value];
    }
  }
}
