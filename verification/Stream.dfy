/**
 Incremental framing over a byte source that delivers its data in arbitrary pieces, with
 interruptions. The stream yields one by one exactly the records the slice splitter returns at once.
 */
module Stream {
  import opened Prelude
  import opened Framing

  /** What one call to the underlying reader does: deliver some bytes, be interrupted, or fail. */
  datatype Event = Chunk(bytes: seq<Byte>) | Interrupted | Failed

  datatype Io<+T> = Ready(value: T) | Interrupt | Fault

  function BytesOf(script: seq<Event>): seq<Byte> {
    if script == [] then []
    else (if script[0].Chunk? then script[0].bytes else []) + BytesOf(script[1..])
  }

  /** A reader never delivers an empty piece before its end. */
  predicate Proper(script: seq<Event>) {
    forall i :: 0 <= i < |script| ==> script[i].Chunk? ==> script[i].bytes != []
  }

  predicate NoFailure(script: seq<Event>) {
    forall i :: 0 <= i < |script| ==> !script[i].Failed?
  }

  /** The size of the largest piece. */
  function LargestFill(script: seq<Event>): nat {
    if script == [] then 0
    else Max(if script[0].Chunk? then |script[0].bytes| else 0, LargestFill(script[1..]))
  }

  /** A buffered reader: the window already filled, and what the underlying reader will do next. */
  class Source {
    var window: seq<Byte>
    var script: seq<Event>

    constructor (events: seq<Event>)
      ensures window == [] && script == events
    {
      window := [];
      script := events;
    }

    predicate Valid()
      reads this
    {
      Proper(script)
    }

    /** The bytes still to come. */
    function Remaining(): seq<Byte>
      reads this
    {
      window + BytesOf(script)
    }

    predicate Smooth()
      reads this
    {
      Valid() && NoFailure(script)
    }

    /** A bound on every window this reader will ever show. */
    function FillBound(): nat
      reads this
    {
      Max(|window|, LargestFill(script))
    }

    /** The window, refilled when empty; empty only at the end. */
    method FillBuf() returns (r: Io<seq<Byte>>)
      requires Valid()
      modifies this
      ensures Valid() && Remaining() == old(Remaining()) && FillBound() <= old(FillBound())
      ensures old(Smooth()) ==> Smooth() && !r.Fault?
      ensures r.Ready? ==> r.value == window && (window == [] ==> Remaining() == [])
      ensures |script| <= old(|script|)
      ensures !r.Ready? ==> |script| < old(|script|)
    {
      if window != [] || script == [] {
        return Ready(window);
      }
      var e := script[0];
      script := script[1..];
      match e {
        case Chunk(bytes) =>
          window := bytes;
          return Ready(window);
        case Interrupted => return Interrupt;
        case Failed => return Fault;
      }
    }

    method Consume(n: nat)
      requires Valid() && n <= |window|
      modifies this`window
      ensures Valid() && Remaining() == old(Remaining())[n..] && FillBound() <= old(FillBound())
      ensures |window| == old(|window|) - n
      ensures old(Smooth()) ==> Smooth()
    {
      ghost var rest := BytesOf(script);
      assert (window + rest)[n..] == window[n..] + rest;
      window := window[n..];
    }

    /** A read of at most `k` bytes: possibly fewer, none only at the end. */
    method Read(k: nat) returns (r: Io<seq<Byte>>)
      requires Valid() && k > 0
      modifies this
      ensures Valid()
      ensures old(Smooth()) ==> Smooth() && !r.Fault?
      ensures r.Ready? ==>
        |r.value| <= k && r.value <= old(Remaining()) && Remaining() == old(Remaining())[|r.value|..] &&
        (r.value == [] ==> old(Remaining()) == [])
      ensures !r.Ready? ==> Remaining() == old(Remaining()) && |script| < old(|script|)
      ensures |script| <= old(|script|)
    {
      ghost var all := Remaining();
      var avail := FillBuf();
      if !avail.Ready? {
        return if avail.Interrupt? then Interrupt else Fault;
      }
      var n := Min(k, |window|);
      var piece := window[..n];
      assert piece <= all;
      Consume(n);
      return Ready(piece);
    }
  }

  // ---------------------------------------------------------------- reading a line

  /** The bytes up to and including the first delimiter, or everything when there is none. */
  function FirstPiece(data: seq<Byte>, delim: Byte): (line: seq<Byte>)
    ensures line <= data
  {
    var i := IndexFrom(data, delim, 0);
    if i == |data| then data else data[..i + 1]
  }

  lemma FirstPieceFound(a: seq<Byte>, b: seq<Byte>, i: nat, delim: Byte)
    requires delim !in a && i < |b| && b[i] == delim && delim !in b[..i]
    ensures FirstPiece(a + b, delim) == a + b[..i + 1]
    ensures IndexFrom(a + b, delim, 0) == |a| + i
  {
    var all := a + b;
    forall j | 0 <= j < |a| + i
      ensures all[j] != delim
    {
      if j >= |a| { assert b[..i][j - |a|] == all[j]; }
    }
    assert all[|a| + i] == delim;
    assert IndexFrom(all, delim, 0) == |a| + i;
    assert all[..|a| + i + 1] == a + b[..i + 1];
  }

  lemma FirstPieceNone(data: seq<Byte>, delim: Byte)
    requires delim !in data
    ensures FirstPiece(data, delim) == data && IndexFrom(data, delim, 0) == |data|
  {
  }

  /**
   Reads up to a delimiter, retrying interruptions, and gives up once more than `max` bytes have
   come without one. The buffer never outgrows `max` by more than one fill.
   */
  method ReadUntilCapped(r: Source, delim: Byte, max: nat) returns (res: Io<nat>, buf: seq<Byte>)
    requires r.Valid()
    modifies r
    ensures r.Valid() && (old(r.Smooth()) ==> r.Smooth())
    ensures !res.Interrupt?
    ensures res.Ready? ==>
      buf == FirstPiece(old(r.Remaining()), delim) && res.value == |buf| &&
      r.Remaining() == old(r.Remaining())[|buf|..]
    ensures old(r.Smooth()) && IndexFrom(old(r.Remaining()), delim, 0) <= max ==> res.Ready?
    ensures |buf| <= max + old(r.FillBound())
    ensures r.FillBound() <= old(r.FillBound())
  {
    hide FirstPiece, BytesOf, Proper, NoFailure, LargestFill;
    ghost var all, smooth, bound := r.Remaining(), r.Smooth(), r.FillBound();
    var total := 0;
    buf := [];
    assert [] + r.Remaining() == r.Remaining();
    while true
      invariant r.Valid() && (smooth ==> r.Smooth())
      invariant total == |buf| <= max
      invariant all == buf + r.Remaining() && delim !in buf
      invariant r.FillBound() <= bound
      decreases |r.script| + |r.Remaining()|
    {
      var avail := r.FillBuf();
      if avail.Interrupt? {
        continue;
      }
      if avail.Fault? {
        return Fault, buf;
      }
      if avail.value == [] {
        assert buf + [] == buf;
        FirstPieceNone(all, delim);
        return Ready(total), buf;
      }
      var window := r.window;
      ghost var rest := BytesOf(r.script);
      var i := IndexFrom(window, delim, 0);
      assert window[0..i] == window[..i];
      if i < |window| {
        FoundInWindow(all, buf, window, rest, i, delim);
        buf := buf + window[..i + 1];
        r.Consume(i + 1);
        return Ready(total + i + 1), buf;
      }
      assert window[..i] == window;
      assert buf + (window + rest) == (buf + window) + rest;
      assert (window + rest)[|window|..] == rest;
      buf := buf + window;
      r.Consume(|window|);
      total := total + |window|;
      if |buf| > max {
        NoDelimiterYet(buf, rest, delim);
        return Fault, buf;
      }
    }
  }

  lemma FoundInWindow(all: seq<Byte>, buf: seq<Byte>, window: seq<Byte>, rest: seq<Byte>, i: nat, delim: Byte)
    requires all == buf + (window + rest) && delim !in buf
    requires i < |window| && window[i] == delim && delim !in window[..i]
    ensures FirstPiece(all, delim) == buf + window[..i + 1]
    ensures all[|buf| + i + 1..] == (window + rest)[i + 1..]
  {
    assert (window + rest)[..i] == window[..i];
    FirstPieceFound(buf, window + rest, i, delim);
    assert (window + rest)[..i + 1] == window[..i + 1];
  }

  lemma NoDelimiterYet(buf: seq<Byte>, rest: seq<Byte>, delim: Byte)
    requires delim !in buf
    ensures IndexFrom(buf + rest, delim, 0) >= |buf|
  {
    var all := buf + rest;
    assert forall j :: 0 <= j < |buf| ==> all[j] == buf[j];
  }

  /** Reads until `n` bytes have come or the source ends, retrying interruptions. */
  method ReadFull(r: Source, n: nat) returns (res: Io<nat>, buf: seq<Byte>)
    requires r.Valid()
    modifies r
    ensures r.Valid() && (old(r.Smooth()) ==> r.Smooth() && res.Ready?)
    ensures !res.Interrupt?
    ensures res.Ready? ==>
      buf == old(r.Remaining())[..Min(n, |old(r.Remaining())|)] && res.value == |buf| &&
      r.Remaining() == old(r.Remaining())[|buf|..]
  {
    hide BytesOf, Proper, NoFailure;
    ghost var all, smooth := r.Remaining(), r.Smooth();
    buf := [];
    assert [] + r.Remaining() == r.Remaining();
    while |buf| < n
      invariant r.Valid() && (smooth ==> r.Smooth())
      invariant |buf| <= n && all == buf + r.Remaining()
      decreases |r.script| + |r.Remaining()|
    {
      ghost var before := r.Remaining();
      var piece := r.Read(n - |buf|);
      if piece.Interrupt? {
        continue;
      }
      if piece.Fault? {
        return Fault, buf;
      }
      if piece.value == [] {
        assert all == buf && all[|buf|..] == before && all[..|buf|] == buf;
        return Ready(|buf|), buf;
      }
      PieceJoins(buf, piece.value, before);
      buf := buf + piece.value;
    }
    assert all[..|buf|] == buf && all[|buf|..] == r.Remaining();
    return Ready(|buf|), buf;
  }

  lemma PieceJoins(buf: seq<Byte>, piece: seq<Byte>, before: seq<Byte>)
    requires piece <= before
    ensures buf + before == (buf + piece) + before[|piece|..]
  {
    assert before == piece + before[|piece|..];
  }

  /** `read_to_end`. */
  method ReadToEnd(r: Source) returns (res: Io<nat>, buf: seq<Byte>)
    requires r.Valid()
    modifies r
    ensures r.Valid()
    ensures old(r.Smooth()) ==> res.Ready?
    ensures res.Ready? ==> buf == old(r.Remaining())
  {
    hide BytesOf, Proper, NoFailure;
    ghost var all, smooth := r.Remaining(), r.Smooth();
    buf := [];
    assert [] + r.Remaining() == r.Remaining();
    while true
      invariant r.Valid() && (smooth ==> r.Smooth())
      invariant all == buf + r.Remaining()
      decreases |r.script| + |r.Remaining()|
    {
      var avail := r.FillBuf();
      if avail.Interrupt? {
        continue;
      }
      if avail.Fault? {
        return Fault, buf;
      }
      if avail.value == [] {
        assert buf + [] == buf;
        return Ready(|buf|), buf;
      }
      PieceJoins(buf, avail.value, r.Remaining());
      buf := buf + avail.value;
      r.Consume(|r.window|);
    }
  }

  // ---------------------------------------------------------------- limiting what is read

  const U64_MAX: nat := 0xFFFF_FFFF_FFFF_FFFF

  /** Passes another reader's bytes on, and fails once more than `limit` of them have come. */
  class LimitReader {
    const inner: Source
    const limit: nat
    var readSoFar: nat

    constructor (inner: Source, limit: nat)
      ensures this.inner == inner && this.limit == limit && readSoFar == 0
    {
      this.inner := inner;
      this.limit := limit;
      readSoFar := 0;
    }

    method Read(k: nat) returns (r: Io<seq<Byte>>)
      requires inner.Valid() && k > 0 && readSoFar <= U64_MAX
      modifies this, inner
      ensures inner.Valid() && readSoFar <= U64_MAX
      ensures old(inner.Smooth()) ==> inner.Smooth()
      ensures !r.Ready? && r.Interrupt? ==> inner.Remaining() == old(inner.Remaining()) && readSoFar == old(readSoFar)
      ensures r.Ready? ==>
        |r.value| <= k && r.value <= old(inner.Remaining()) &&
        inner.Remaining() == old(inner.Remaining())[|r.value|..] &&
        readSoFar == Min(old(readSoFar) + |r.value|, U64_MAX) <= limit &&
        (r.value == [] ==> old(inner.Remaining()) == [])
      ensures old(inner.Smooth()) && r.Fault? && limit < U64_MAX ==>
        old(readSoFar) + |old(inner.Remaining())| > limit
      ensures |inner.script| <= old(|inner.script|) && (r.Interrupt? ==> |inner.script| < old(|inner.script|))
    {
      r := inner.Read(k);
      if r.Ready? {
        readSoFar := Min(readSoFar + |r.value|, U64_MAX);
        if readSoFar > limit {
          return Fault;
        }
      }
    }
  }

  /** Reading everything through a limit succeeds exactly when there is no more than the limit allows. */
  method ReadLimited(inner: Source, limit: nat, piece: nat) returns (r: Result<seq<Byte>>)
    requires inner.Smooth() && piece > 0 && limit < U64_MAX
    modifies inner
    ensures r.Ok? <==> |old(inner.Remaining())| <= limit
    ensures r.Ok? ==> r.value == old(inner.Remaining())
  {
    hide BytesOf, Proper, NoFailure;
    var reader := new LimitReader(inner, limit);
    ghost var all := inner.Remaining();
    var data: seq<Byte> := [];
    assert [] + inner.Remaining() == inner.Remaining();
    while true
      invariant fresh(reader) && reader.inner == inner && reader.limit == limit && inner.Smooth()
      invariant all == data + inner.Remaining() && reader.readSoFar == |data| <= limit
      decreases |inner.script| + |inner.Remaining()|
    {
      ghost var before := inner.Remaining();
      var got := reader.Read(piece);
      match got {
        case Interrupt =>
        case Fault => return Err;
        case Ready(bytes) =>
          if bytes == [] {
            assert data + [] == data;
            return Ok(data);
          }
          PieceJoins(data, bytes, before);
          data := data + bytes;
      }
    }
  }

  // ---------------------------------------------------------------- the items of a stream

  type Item = Result<seq<Byte>>

  function Oks(recs: Records): (items: seq<Item>)
    ensures |items| == |recs|
  {
    seq(|recs|, i requires 0 <= i < |recs| => Ok(recs[i]))
  }

  /** Fixed-length items: full records, then one error for a ragged tail. */
  function FixedItems(data: seq<Byte>, size: nat): seq<Item>
    requires size > 0
    decreases |data|
  {
    if data == [] then []
    else if |data| < size then [Err]
    else [Ok(data[..size])] + FixedItems(data[size..], size)
  }

  /** Every line, its terminator left out, is within the cap. */
  predicate LinesFit(data: seq<Byte>, max: nat)
    decreases |data|
  {
    data == [] ||
    (var i := IndexFrom(data, LF, 0);
     i <= max && (i < |data| ==> LinesFit(data[i + 1..], max)))
  }

  datatype State =
    | LineState(done: bool, maxRecord: nat)
    | FixedState(done: bool, recordLen: nat)
    | BufferedState(records: Records)

  class RecordStream {
    const source: Source
    var state: State

    constructor (source: Source, state: State)
      ensures this.source == source && this.state == state
    {
      this.source := source;
      this.state := state;
    }

    predicate Valid()
      reads this, source
    {
      source.Valid() && (state.FixedState? ==> state.recordLen > 0)
    }

    /** No failure to come, and no line over the cap. */
    predicate Smooth()
      reads this, source
    {
      Valid() &&
      match state
      case LineState(done, max) => source.Smooth() && (!done ==> LinesFit(source.Remaining(), max))
      case FixedState(_, _) => source.Smooth()
      case BufferedState(_) => true
    }

    /** The end, or an error, has been reached. */
    predicate Stopped()
      reads this
    {
      match state
      case LineState(done, _) => done
      case FixedState(done, _) => done
      case BufferedState(records) => records == []
    }

    /** Everything the stream has yet to yield, when its source never fails and no line is too long. */
    function Items(): seq<Item>
      requires Valid()
      reads this, source
    {
      match state
      case LineState(done, _) => if done then [] else Oks(Lines(source.Remaining()))
      case FixedState(done, size) => if done then [] else FixedItems(source.Remaining(), size)
      case BufferedState(records) => Oks(records)
    }

    /**
     Yields the first remaining item. Whatever the source does, a record it yields is the next one of
     the data, an error is the only other thing it can yield, and after an error nothing follows.
     */
    method Next() returns (item: Option<Item>)
      requires Valid()
      modifies this, source
      ensures Valid() && (old(Smooth()) ==> Smooth())
      ensures old(Smooth()) ==>
        if old(Items()) == [] then item == None && Items() == []
        else item == Some(old(Items())[0]) && Items() == old(Items())[1..]
      ensures item.Some? && item.value.Ok? ==>
        old(Items()) != [] && item.value == old(Items())[0] && Items() == old(Items())[1..]
      ensures item == None ==> old(Items()) == [] && Items() == []
      ensures item == Some(Err) ==> Stopped()
      ensures old(Stopped()) ==> item == None && Stopped()
    {
      match state {
        case LineState(_, _) => item := NextOfLines();
        case FixedState(_, _) => item := NextOfFixed();
        case BufferedState(records) =>
          if records == [] {
            return None;
          }
          assert Oks(records)[1..] == Oks(records[1..]);
          state := BufferedState(records[1..]);
          return Some(Ok(records[0]));
      }
    }

    /** One line, its line feed and a carriage return before it removed; a last line is kept verbatim. */
    method NextOfLines() returns (item: Option<Item>)
      requires Valid() && state.LineState?
      modifies this, source
      ensures Valid() && (old(Smooth()) ==> Smooth())
      ensures old(Smooth()) ==>
        if old(Items()) == [] then item == None && Items() == []
        else item == Some(old(Items())[0]) && Items() == old(Items())[1..]
      ensures item.Some? && item.value.Ok? ==>
        old(Items()) != [] && item.value == old(Items())[0] && Items() == old(Items())[1..]
      ensures item == None ==> old(Items()) == [] && Items() == []
      ensures item == Some(Err) ==> Stopped()
      ensures old(Stopped()) ==> item == None && Stopped()
    {
      hide BytesOf, Proper, NoFailure, Lines, LinesFit;
      if state.done {
        return None;
      }
      var max := state.maxRecord;
      ghost var data := source.Remaining();
      var n, buf := ReadUntilCapped(source, LF, max);
      NextLine(data, max);
      if !n.Ready? {
        state := LineState(true, max);
        return Some(Err);
      }
      if n.value == 0 {
        state := LineState(true, max);
        return None;
      }
      if buf[|buf| - 1] == LF {
        buf := buf[..|buf| - 1];
        if buf != [] && buf[|buf| - 1] == CR {
          buf := buf[..|buf| - 1];
        }
      } else {
        state := LineState(true, max);
      }
      return Some(Ok(buf));
    }

    /** One record of the fixed length; a partial one at the end is an error. */
    method NextOfFixed() returns (item: Option<Item>)
      requires Valid() && state.FixedState?
      modifies this, source
      ensures Valid() && (old(Smooth()) ==> Smooth())
      ensures old(Smooth()) ==>
        if old(Items()) == [] then item == None && Items() == []
        else item == Some(old(Items())[0]) && Items() == old(Items())[1..]
      ensures item.Some? && item.value.Ok? ==>
        old(Items()) != [] && item.value == old(Items())[0] && Items() == old(Items())[1..]
      ensures item == None ==> old(Items()) == [] && Items() == []
      ensures item == Some(Err) ==> Stopped()
      ensures old(Stopped()) ==> item == None && Stopped()
    {
      hide BytesOf, Proper, NoFailure, FixedItems;
      if state.done {
        return None;
      }
      var size := state.recordLen;
      ghost var data := source.Remaining();
      FixedItemsStep(data, size);
      var n, buf := ReadFull(source, size);
      if !n.Ready? {
        state := FixedState(true, size);
        return Some(Err);
      }
      if n.value == 0 {
        state := FixedState(true, size);
        return None;
      }
      if n.value == size {
        return Some(Ok(buf));
      }
      state := FixedState(true, size);
      return Some(Err);
    }
  }

  /** One fixed-length item. */
  lemma FixedItemsStep(data: seq<Byte>, size: nat)
    requires size > 0
    ensures FixedItems([], size) == []
    ensures 0 < |data| < size ==> FixedItems(data, size) == [Err]
    ensures |data| >= size ==>
      FixedItems(data, size) != [] && FixedItems(data, size)[0] == Ok(data[..size]) &&
      FixedItems(data, size)[1..] == FixedItems(data[size..], size)
  {
  }

  /** The first raw piece of a non-empty stream is its first line, with the terminator when there is one. */
  lemma NextLine(data: seq<Byte>, max: nat)
    ensures data == [] ==> FirstPiece(data, LF) == [] && Lines(data) == []
    ensures var piece := FirstPiece(data, LF);
            data != [] ==>
              (piece != [] &&
               if piece[|piece| - 1] == LF then
                 Oks(Lines(data)) == [Ok(StripCr(piece[..|piece| - 1]))] + Oks(Lines(data[|piece|..])) &&
                 (LinesFit(data, max) ==> LinesFit(data[|piece|..], max))
               else
                 piece == data && Oks(Lines(data)) == [Ok(data)])
    ensures LinesFit(data, max) ==> IndexFrom(data, LF, 0) <= max
  {
    var i := IndexFrom(data, LF, 0);
    if i == |data| {
      assert data[0..i] == data;
    } else {
      assert data[..i + 1][..i] == data[..i];
      assert Lines(data) == [StripCr(data[..i])] + Lines(data[i + 1..]);
      var rest := Lines(data[i + 1..]);
      assert Oks([StripCr(data[..i])] + rest) == [Ok(StripCr(data[..i]))] + Oks(rest);
    }
  }

  /** Builds a stream; the descriptor framings read everything and split it at once. */
  method Open(source: Source, mode: Mode, recordLen: nat, maxRecord: nat) returns (r: Result<RecordStream>)
    requires source.Valid()
    modifies source
    ensures r.Ok? ==> fresh(r.value) && r.value.source == source && r.value.Valid()
    ensures mode.Newline? ==>
      r.Ok? && r.value.Items() == Oks(Lines(old(source.Remaining()))) &&
      (old(source.Smooth()) && LinesFit(old(source.Remaining()), maxRecord) ==> r.value.Smooth())
    ensures mode.Fixed? ==>
      (r.Ok? <==> 0 < recordLen <= maxRecord) &&
      (r.Ok? ==> r.value.Items() == FixedItems(old(source.Remaining()), recordLen)) &&
      (r.Ok? && old(source.Smooth()) ==> r.value.Smooth())
    ensures mode.Rdw? || mode.RdwBlocked? ==>
      var split := Split(old(source.Remaining()), mode, recordLen);
      (r.Ok? ==> split.Ok? && r.value.Smooth() && r.value.Items() == Oks(split.value)) &&
      (old(source.Smooth()) && split.Ok? ==> r.Ok?)
  {
    var state: State;
    match mode {
      case Newline =>
        state := LineState(false, maxRecord);
      case Fixed =>
        if recordLen == 0 || recordLen > maxRecord {
          return Err;
        }
        state := FixedState(false, recordLen);
      case _ =>
        var n, buf := ReadToEnd(source);
        if !n.Ready? {
          return Err;
        }
        var split := SplitRecords(buf, mode, recordLen);
        if split.Err? {
          return Err;
        }
        state := BufferedState(split.value);
    }
    var stream := new RecordStream(source, state);
    return Ok(stream);
  }

  /** A stream broke off: a part of `all` came, and then one error. */
  predicate BrokeOff(items: seq<Item>, all: seq<Item>) {
    |items| > 0 && items[|items| - 1] == Err && items[..|items| - 1] <= all
  }

  /** Drains a stream, as `collect` does. */
  method Collect(stream: RecordStream) returns (items: seq<Item>)
    requires stream.Valid()
    modifies stream, stream.source
    ensures old(stream.Smooth()) ==> items == old(stream.Items())
    ensures items == old(stream.Items()) || BrokeOff(items, old(stream.Items()))
  {
    hide RecordStream.Items, RecordStream.Stopped;
    items := [];
    ghost var all, smooth := stream.Items(), stream.Smooth();
    while true
      invariant stream.Valid() && (smooth ==> stream.Smooth())
      invariant (items + stream.Items() == all) || (stream.Stopped() && BrokeOff(items, all))
      invariant smooth ==> items + stream.Items() == all
      decreases !stream.Stopped(), |stream.Items()|
    {
      ghost var rest, stopped := stream.Items(), stream.Stopped();
      var item := stream.Next();
      if item.None? {
        assert items + [] == items;
        return;
      }
      if rest != [] && item.value == rest[0] && stream.Items() == rest[1..] {
        assert items + rest == items + [item.value] + stream.Items();
      }
      if item.value.Err? {
        assert (items + [Err])[..|items|] == items;
        assert items <= all;
      }
      items := items + [item.value];
    }
  }

  // ---------------------------------------------------------------- agreement with the splitter

  lemma OksConcat(a: Records, b: Records)
    ensures Oks(a + b) == Oks(a) + Oks(b)
  {
  }

  /**
   A fixed-length stream yields the chunks of its whole part, followed by a single error exactly when
   the length is not a multiple of the record length.
   */
  lemma {:induction false} FixedItemsAreChunks(data: seq<Byte>, size: nat)
    requires size > 0
    ensures var whole := |data| / size * size;
            0 <= whole <= |data| &&
            FixedItems(data, size) == Oks(Chunks(data[..whole], size)) + (if |data| % size == 0 then [] else [Err])
    decreases |data|
  {
    var n := |data|;
    var whole := n / size * size;
    WholePart(n, size);
    if data == [] {
    } else if n < size {
      assert data[..0] == [];
    } else {
      var rest := data[size..];
      FixedItemsAreChunks(rest, size);
      WholeRest(n, size);
      var restWhole := |rest| / size * size;
      assert data[..whole][size..] == rest[..restWhole];
      ChunksCons(data[..whole], size);
      assert data[..whole][..size] == data[..size];
      OksConcat([data[..size]], Chunks(rest[..restWhole], size));
      var tail: seq<Item> := if n % size == 0 then [] else [Err];
      assert Oks([data[..size]]) == [Ok(data[..size])];
      var mid := Oks(Chunks(rest[..restWhole], size));
      assert [Ok(data[..size])] + (mid + tail) == ([Ok(data[..size])] + mid) + tail;
    }
  }

  lemma WholePart(n: nat, size: nat)
    requires size > 0
    ensures 0 <= n / size * size <= n && (n < size ==> n / size * size == 0 && (n > 0 ==> n % size != 0))
    ensures n >= size ==> n / size * size >= size
    ensures n % size == 0 ==> n / size * size == n
  {
    var q := n / size;
    assert n == q * size + n % size;
    if n >= size { assert q >= 1; assert (q - 1) * size >= 0; }
  }

  lemma Monotone(a: int, b: int, c: nat)
    requires a <= b
    ensures a * c <= b * c
  {
    assert (b - a) * c >= 0;
  }

  lemma WholeRest(n: nat, size: nat)
    requires 0 < size <= n
    ensures (n - size) / size * size == n / size * size - size
    ensures (n - size) % size == n % size
  {
    var q, r := n / size, n % size;
    assert n == q * size + r;
    var q', r' := (n - size) / size, (n - size) % size;
    assert n - size == q' * size + r';
    var d := q - 1 - q';
    assert d * size == r' - r;
    if d >= 1 { Monotone(1, d, size); }
    if d <= -1 { Monotone(d, -1, size); }
  }

  lemma ChunksCons(data: seq<Byte>, size: nat)
    requires size > 0 && |data| >= size
    ensures Chunks(data, size) == [data[..size]] + Chunks(data[size..], size)
  {
    if |data| == size { assert data[..size] == data && data[size..] == []; }
  }

  /** What a stream over the bytes `data` must yield, told by the slice splitter alone. */
  function Expected(data: seq<Byte>, mode: Mode, size: nat): seq<Item> {
    match Split(data, mode, size)
    case Ok(recs) => Oks(recs)
    case Err =>
      if mode.Fixed? && size > 0 then Oks(Chunks(data[..|data| / size * size], size)) + [Err] else [Err]
  }

  lemma FixedExpected(data: seq<Byte>, size: nat)
    requires size > 0
    ensures FixedItems(data, size) == Expected(data, Mode.Fixed, size)
  {
    FixedItemsAreChunks(data, size);
    WholePart(|data|, size);
    if |data| % size == 0 {
      assert data[..|data|] == data;
      assert Oks(Chunks(data, size)) + [] == Oks(Chunks(data, size));
    }
  }

  /** The source neither fails nor holds a line over the cap. */
  predicate Uneventful(source: Source, mode: Mode, maxRecord: nat)
    reads source
  {
    source.Smooth() && (mode.Newline? ==> LinesFit(source.Remaining(), maxRecord))
  }

  /**
   However the source cuts its bytes into pieces and interrupts, opening and draining a stream yields
   exactly what splitting the whole byte string at once yields; a failing source or a line over the
   cap can only cut that short with one error.
   */
  method ReadAllRecords(source: Source, mode: Mode, recordLen: nat, maxRecord: nat) returns (r: Result<seq<Item>>)
    requires source.Valid()
    modifies source
    ensures mode.Newline? ==> r.Ok?
    ensures mode.Fixed? ==> (r.Ok? <==> 0 < recordLen <= maxRecord)
    ensures mode.Rdw? || mode.RdwBlocked? ==>
      var split := Split(old(source.Remaining()), mode, recordLen);
      (r.Ok? ==> split.Ok?) && (old(source.Smooth()) && split.Ok? ==> r.Ok?)
    ensures r.Ok? ==>
      var expected := Expected(old(source.Remaining()), mode, recordLen);
      (r.value == expected || BrokeOff(r.value, expected)) &&
      (old(Uneventful(source, mode, maxRecord)) || mode.Rdw? || mode.RdwBlocked? ==> r.value == expected)
  {
    ghost var data := source.Remaining();
    var stream := Open(source, mode, recordLen, maxRecord);
    if stream.Err? {
      return Err;
    }
    if mode.Fixed? { FixedExpected(data, recordLen); }
    var items := Collect(stream.value);
    return Ok(items);
  }
}
