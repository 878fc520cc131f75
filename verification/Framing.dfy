/** Splitting a byte stream into records, and assembling records into a stream. */
module Framing {
  import opened Prelude

  const LF: Byte := 10
  const CR: Byte := 13

  type Records = seq<seq<Byte>>

  datatype Mode = Newline | Fixed | Rdw | RdwBlocked

  // ---------------------------------------------------------------- splitting

  /** A line without its carriage return, if it ends in one. */
  function StripCr(line: seq<Byte>): seq<Byte> {
    if line != [] && line[|line| - 1] == CR then line[..|line| - 1] else line
  }

  /** The lines of a stream; a last line without a terminator keeps its bytes as they are. */
  function Lines(data: seq<Byte>): Records
    decreases |data|
  {
    if data == [] then []
    else
      var i := IndexFrom(data, LF, 0);
      if i == |data| then [data] else [StripCr(data[..i])] + Lines(data[i + 1..])
  }

  function Chunks(data: seq<Byte>, size: nat): Records
    requires size > 0
    decreases |data|
  {
    if data == [] then []
    else if |data| <= size then [data]
    else [data[..size]] + Chunks(data[size..], size)
  }

  function FixedRecords(data: seq<Byte>, size: nat): Result<Records> {
    if size == 0 || |data| % size != 0 then Err else Ok(Chunks(data, size))
  }

  /** The length in a descriptor word: big-endian, counting its own four bytes. */
  function DescriptorLen(data: seq<Byte>): (r: Result<nat>)
    ensures r.Ok? ==> r.value >= 4 && |data| >= 4
  {
    if |data| < 4 then Err
    else
      var high: nat, low: nat := data[0], data[1];
      var len := 256 * high + low;
      if len < 4 then Err else Ok(len)
  }

  function RdwRecords(data: seq<Byte>): Result<Records>
    decreases |data|
  {
    if data == [] then Ok([])
    else
      var len :- DescriptorLen(data);
      if len > |data| then Err
      else
        var rest :- RdwRecords(data[len..]);
        Ok([data[4..len]] + rest)
  }

  function BlockedRecords(data: seq<Byte>): Result<Records>
    decreases |data|
  {
    if data == [] then Ok([])
    else
      var len :- DescriptorLen(data);
      if len > |data| then Err
      else
        var block :- RdwRecords(data[4..len]);
        var rest :- BlockedRecords(data[len..]);
        Ok(block + rest)
  }

  function Split(data: seq<Byte>, mode: Mode, size: nat): Result<Records> {
    match mode
    case Newline => Ok(Lines(data))
    case Fixed => FixedRecords(data, size)
    case Rdw => RdwRecords(data)
    case RdwBlocked => BlockedRecords(data)
  }

  // ---------------------------------------------------------------- the source's splitting loops

  /** One pass over the bytes, cutting at each line feed. */
  method SplitLines(data: seq<Byte>) returns (out: Records)
    ensures out == Lines(data)
  {
    hide Lines;
    out := [];
    var start := 0;
    assert data[0..] == data;
    assert [] + Lines(data) == Lines(data);
    for i := 0 to |data|
      invariant start <= i && LF !in data[start..i]
      invariant Lines(data) == out + Lines(data[start..])
    {
      if data[i] == LF {
        var end := i;
        if end > start && data[end - 1] == CR {
          end := end - 1;
        }
        LinesStep(data, start, i, end, out);
        out := out + [data[start..end]];
        start := i + 1;
      } else {
        assert data[start..i + 1] == data[start..i] + [data[i]];
      }
    }
    assert data[start..|data|] == data[start..];
    LinesLast(data[start..]);
    if start < |data| {
      out := out + [data[start..]];
    } else {
      assert out + [] == out;
    }
  }

  lemma LinesStep(data: seq<Byte>, start: nat, i: nat, end: nat, out: Records)
    requires start <= end <= i < |data| && data[i] == LF && LF !in data[start..i]
    requires end == if i > start && data[i - 1] == CR then i - 1 else i
    ensures out + Lines(data[start..]) == (out + [data[start..end]]) + Lines(data[i + 1..])
  {
    hide Lines;
    LinesCut(data[start..], i - start);
    var line, rest := data[start..i], Lines(data[i + 1..]);
    assert data[start..][..i - start] == line;
    assert StripCr(line) == data[start..end];
    assert data[start..][i - start + 1..] == data[i + 1..];
    assert out + ([data[start..end]] + rest) == (out + [data[start..end]]) + rest;
  }

  /** The first line feed cuts off the first line. */
  lemma LinesCut(data: seq<Byte>, i: nat)
    requires i < |data| && data[i] == LF && LF !in data[..i]
    ensures Lines(data) == [StripCr(data[..i])] + Lines(data[i + 1..])
  {
    var k := IndexFrom(data, LF, 0);
    assert k == i;
  }

  lemma LinesLast(data: seq<Byte>)
    requires LF !in data
    ensures Lines(data) == if data == [] then [] else [data]
  {
  }

  method SplitRdw(data: seq<Byte>) returns (r: Result<Records>)
    ensures r == RdwRecords(data)
  {
    hide RdwRecords;
    var out: Records := [];
    var pos := 0;
    assert data[0..] == data;
    GoesOnStart(RdwRecords(data));
    while pos < |data|
      invariant pos <= |data|
      invariant GoesOn(RdwRecords(data), out, RdwRecords(data[pos..]))
      decreases |data| - pos
    {
      RdwCut(data[pos..]);
      var len := DescriptorLen(data[pos..]);
      if len.Err? || pos + len.value > |data| {
        return Err;
      }
      var end := pos + len.value;
      assert data[pos..][4..len.value] == data[pos + 4..end];
      assert data[pos..][len.value..] == data[end..];
      GoesOnStep(RdwRecords(data), out, [data[pos + 4..end]], RdwRecords(data[end..]));
      out := out + [data[pos + 4..end]];
      pos := end;
    }
    assert data[pos..] == [];
    RdwNothing();
    return Ok(out);
  }

  ghost predicate GoesOn(whole: Result<Records>, done: Records, rest: Result<Records>) {
    if rest.Err? then whole.Err? else whole == Ok(done + rest.value)
  }

  lemma GoesOnStart(whole: Result<Records>)
    ensures GoesOn(whole, [], whole)
  {
    if whole.Ok? { assert [] + whole.value == whole.value; }
  }

  lemma GoesOnStep(whole: Result<Records>, done: Records, more: Records, rest: Result<Records>)
    requires GoesOn(whole, done, if rest.Err? then Err else Ok(more + rest.value))
    ensures GoesOn(whole, done + more, rest)
  {
    if rest.Ok? { assert done + (more + rest.value) == (done + more) + rest.value; }
  }

  lemma RdwCut(data: seq<Byte>)
    requires data != []
    ensures var len := DescriptorLen(data);
            RdwRecords(data) ==
            if len.Err? || len.value > |data| then Err
            else
              var rest := RdwRecords(data[len.value..]);
              if rest.Err? then Err else Ok([data[4..len.value]] + rest.value)
  {
  }

  lemma RdwNothing()
    ensures RdwRecords([]) == Ok([])
    ensures forall done: Records :: done + [] == done
  {
  }

  /** The two nested loops over blocks and over the records of a block. */
  method SplitBlocked(data: seq<Byte>) returns (r: Result<Records>)
    ensures r == BlockedRecords(data)
  {
    hide BlockedRecords, RdwRecords;
    var out: Records := [];
    var pos := 0;
    assert data[0..] == data;
    GoesOnStart(BlockedRecords(data));
    while pos < |data|
      invariant pos <= |data|
      invariant GoesOn(BlockedRecords(data), out, BlockedRecords(data[pos..]))
      decreases |data| - pos
    {
      BlockedCut(data[pos..]);
      var len := DescriptorLen(data[pos..]);
      if len.Err? || pos + len.value > |data| {
        return Err;
      }
      var end := pos + len.value;
      assert data[pos..][4..len.value] == data[pos + 4..end];
      assert data[pos..][len.value..] == data[end..];
      var block := SplitBlock(data, pos + 4, end);
      if block.Err? {
        return Err;
      }
      GoesOnStep(BlockedRecords(data), out, block.value, BlockedRecords(data[end..]));
      out := out + block.value;
      pos := end;
    }
    assert data[pos..] == [];
    BlockedNothing(out);
    return Ok(out);
  }

  /**
   The records of the block data[from..end]. A descriptor is read from the whole stream, so near the
   block's end it may reach past it; its record then overruns the block and is refused all the same.
   */
  method SplitBlock(data: seq<Byte>, from: nat, end: nat) returns (r: Result<Records>)
    requires from <= end <= |data|
    ensures r == RdwRecords(data[from..end])
  {
    hide RdwRecords;
    var out: Records := [];
    var inner := from;
    var whole := data[from..end];
    GoesOnStart(RdwRecords(whole));
    while inner < end
      invariant from <= inner <= end
      invariant GoesOn(RdwRecords(whole), out, RdwRecords(data[inner..end]))
      decreases end - inner
    {
      RdwCut(data[inner..end]);
      BlockDescriptor(data, inner, end);
      var len := DescriptorLen(data[inner..]);
      if len.Err? || inner + len.value > end {
        return Err;
      }
      var stop := inner + len.value;
      SliceOfSlice(data, inner, end, 4, len.value);
      SliceOfSlice(data, inner, end, len.value, end - inner);
      GoesOnStep(RdwRecords(whole), out, [data[inner + 4..stop]], RdwRecords(data[stop..end]));
      out := out + [data[inner + 4..stop]];
      inner := stop;
    }
    assert data[inner..end] == [];
    RdwNothing();
    return Ok(out);
  }

  lemma SliceOfSlice(data: seq<Byte>, from: nat, end: nat, a: nat, b: nat)
    requires from <= end <= |data| && a <= b <= end - from
    ensures data[from..end][a..b] == data[from + a..from + b]
    ensures b == end - from ==> data[from..end][a..] == data[from + a..end]
  {
    var block := data[from..end];
    assert forall i :: 0 <= i < |block| ==> block[i] == data[from + i];
    assert b == end - from ==> block[a..] == block[a..b];
  }

  lemma BlockDescriptor(data: seq<Byte>, inner: nat, end: nat)
    requires inner < end <= |data|
    ensures var a, b := DescriptorLen(data[inner..]), DescriptorLen(data[inner..end]);
            if b.Ok? then a == b else a.Err? || inner + a.value > end
  {
    if end - inner >= 4 {
      assert data[inner..end][0] == data[inner..][0] && data[inner..end][1] == data[inner..][1];
    }
  }

  lemma BlockedCut(data: seq<Byte>)
    requires data != []
    ensures var len := DescriptorLen(data);
            BlockedRecords(data) ==
            if len.Err? || len.value > |data| then Err
            else
              var block, rest := RdwRecords(data[4..len.value]), BlockedRecords(data[len.value..]);
              if block.Err? || rest.Err? then Err else Ok(block.value + rest.value)
  {
  }

  lemma BlockedNothing(done: Records)
    ensures BlockedRecords([]) == Ok([]) && done + [] == done
  {
  }

  method SplitRecords(data: seq<Byte>, mode: Mode, size: nat) returns (r: Result<Records>)
    ensures r == Split(data, mode, size)
  {
    match mode {
      case Newline =>
        var lines := SplitLines(data);
        return Ok(lines);
      case Fixed => return FixedRecords(data, size);
      case Rdw => r := SplitRdw(data);
      case RdwBlocked => r := SplitBlocked(data);
    }
  }

  /** A descriptor's length is its first byte times 256 and its second, and is at least its own four bytes. */
  lemma DescriptorRead(high: Byte, low: Byte, c: Byte, d: Byte, rest: seq<Byte>)
    ensures DescriptorLen([high, low, c, d] + rest)
         == if high == 0 && low < 4 then Err else Ok(256 * high + low)
  {
  }

  /** A line ends before the first byte 10, and gives up one byte 13 before it. */
  lemma LineEnds(line: seq<Byte>, rest: seq<Byte>)
    requires 10 !in line
    ensures Lines(line + [10] + rest)
         == [if line != [] && line[|line| - 1] == 13 then line[..|line| - 1] else line] + Lines(rest)
  {
    var data := line + [10] + rest;
    var i := IndexFrom(data, LF, 0);
    assert data[|line|] == LF;
    assert forall k :: 0 <= k < |line| ==> data[k] == line[k];
    assert forall k :: |line| < k <= |data| ==> data[0..k][|line|] == LF;
    assert data[..i] == line && data[i + 1..] == rest;
  }
}
