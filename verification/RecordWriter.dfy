/** Assembling records into a stream, and exactly when splitting the stream gives the records back. */
module RecordWriter {
  import opened Prelude
  import opened Framing

  /** A descriptor word: the length reduced to sixteen bits, big-endian, and two zero bytes. */
  function Descriptor(len: nat): (bs: seq<Byte>)
    ensures |bs| == 4
  {
    [len / 256 % 256, len % 256, 0, 0]
  }

  function AssembleLines(recs: Records): seq<Byte> {
    if recs == [] then [] else recs[0] + [LF] + AssembleLines(recs[1..])
  }

  function AssembleFixed(recs: Records): seq<Byte> {
    if recs == [] then [] else recs[0] + AssembleFixed(recs[1..])
  }

  function AssembleRdw(recs: Records): seq<Byte> {
    if recs == [] then [] else Descriptor(|recs[0]| + 4) + recs[0] + AssembleRdw(recs[1..])
  }

  /** Bytes of the records with a descriptor each. */
  function RdwSize(recs: Records): nat {
    if recs == [] then 0 else |recs[0]| + 4 + RdwSize(recs[1..])
  }

  function AssembleBlocked(recs: Records): seq<Byte> {
    Descriptor(4 + RdwSize(recs)) + AssembleRdw(recs)
  }

  function Assembled(recs: Records, mode: Mode): seq<Byte> {
    match mode
    case Newline => AssembleLines(recs)
    case Fixed => AssembleFixed(recs)
    case Rdw => AssembleRdw(recs)
    case RdwBlocked => AssembleBlocked(recs)
  }

  // ---------------------------------------------------------------- the source's loops

  lemma AssembleSnoc(recs: Records, i: nat)
    requires i < |recs|
    ensures AssembleLines(recs[..i + 1]) == AssembleLines(recs[..i]) + recs[i] + [LF]
    ensures AssembleFixed(recs[..i + 1]) == AssembleFixed(recs[..i]) + recs[i]
    ensures AssembleRdw(recs[..i + 1]) == AssembleRdw(recs[..i]) + Descriptor(|recs[i]| + 4) + recs[i]
    ensures RdwSize(recs[..i + 1]) == RdwSize(recs[..i]) + |recs[i]| + 4
  {
    assert recs[..i + 1] == recs[..i] + [recs[i]];
    AppendLines(recs[..i], recs[i]);
    AppendFixed(recs[..i], recs[i]);
    AppendRdw(recs[..i], recs[i]);
  }

  lemma {:induction false} AppendLines(recs: Records, r: seq<Byte>)
    ensures AssembleLines(recs + [r]) == AssembleLines(recs) + r + [LF]
  {
    if recs == [] {
      assert [r][1..] == [] && recs + [r] == [r];
    } else {
      assert (recs + [r])[1..] == recs[1..] + [r];
      AppendLines(recs[1..], r);
    }
  }

  lemma {:induction false} AppendFixed(recs: Records, r: seq<Byte>)
    ensures AssembleFixed(recs + [r]) == AssembleFixed(recs) + r
  {
    if recs == [] {
      assert [r][1..] == [] && recs + [r] == [r];
    } else {
      assert (recs + [r])[1..] == recs[1..] + [r];
      AppendFixed(recs[1..], r);
    }
  }

  lemma {:induction false} AppendRdw(recs: Records, r: seq<Byte>)
    ensures AssembleRdw(recs + [r]) == AssembleRdw(recs) + Descriptor(|r| + 4) + r
    ensures RdwSize(recs + [r]) == RdwSize(recs) + |r| + 4
  {
    hide Descriptor;
    if recs == [] {
      assert [r][1..] == [] && recs + [r] == [r];
    } else {
      assert (recs + [r])[1..] == recs[1..] + [r];
      AppendRdw(recs[1..], r);
    }
  }

  method Assemble(recs: Records, mode: Mode) returns (body: seq<Byte>)
    ensures body == Assembled(recs, mode)
  {
    hide AssembleLines, AssembleFixed, AssembleRdw, RdwSize, Descriptor;
    AssembleNothing();
    body := [];
    assert recs[..0] == [] && recs[..|recs|] == recs;
    match mode {
      case Newline =>
        for i := 0 to |recs|
          invariant body == AssembleLines(recs[..i])
        {
          AssembleSnoc(recs, i);
          body := body + recs[i];
          body := body + [LF];
        }
      case Fixed =>
        for i := 0 to |recs|
          invariant body == AssembleFixed(recs[..i])
        {
          AssembleSnoc(recs, i);
          body := body + recs[i];
        }
      case Rdw =>
        for i := 0 to |recs|
          invariant body == AssembleRdw(recs[..i])
        {
          AssembleSnoc(recs, i);
          body := body + Descriptor(|recs[i]| + 4);
          body := body + recs[i];
        }
      case RdwBlocked =>
        var sum := 0;
        for i := 0 to |recs|
          invariant sum == RdwSize(recs[..i])
        {
          AssembleSnoc(recs, i);
          sum := sum + |recs[i]| + 4;
        }
        var head := Descriptor(4 + sum);
        body := head;
        assert head + [] == head;
        for i := 0 to |recs|
          invariant body == head + AssembleRdw(recs[..i])
        {
          AssembleSnoc(recs, i);
          body := body + Descriptor(|recs[i]| + 4);
          body := body + recs[i];
          ghost var front, word := AssembleRdw(recs[..i]), Descriptor(|recs[i]| + 4);
          assert ((head + front) + word) + recs[i] == head + ((front + word) + recs[i]);
        }
    }
  }

  lemma AssembleNothing()
    ensures AssembleLines([]) == [] && AssembleFixed([]) == [] && AssembleRdw([]) == [] && RdwSize([]) == 0
  {
  }

  // ---------------------------------------------------------------- newline

  /** No record has a line feed inside or a carriage return at its end. */
  predicate LineSafe(recs: Records) {
    forall i :: 0 <= i < |recs| ==> LF !in recs[i] && StripCr(recs[i]) == recs[i]
  }

  lemma {:induction false} LinesCount(rec: seq<Byte>, rest: seq<Byte>)
    ensures LF !in rec ==> Lines(rec + [LF] + rest) == [StripCr(rec)] + Lines(rest)
    ensures |Lines(rec + [LF] + rest)| >= 1 + |Lines(rest)|
    ensures LF in rec ==> |Lines(rec + [LF] + rest)| > 1 + |Lines(rest)|
    decreases |rec|
  {
    hide Lines;
    var all := rec + [LF] + rest;
    if LF in rec {
      var i := IndexFrom(rec, LF, 0);
      assert rec[0..i] == rec[..i] == all[..i];
      LinesCut(all, i);
      assert all[i + 1..] == rec[i + 1..] + [LF] + rest;
      LinesCount(rec[i + 1..], rest);
    } else {
      assert all[..|rec|] == rec && all[|rec| + 1..] == rest;
      LinesCut(all, |rec|);
    }
  }

  lemma {:induction false} LinesBack(recs: Records)
    ensures |Lines(AssembleLines(recs))| >= |recs|
    ensures Lines(AssembleLines(recs)) == recs <==> LineSafe(recs)
  {
    hide Lines;
    if recs == [] {
      LinesLast([]);
    } else {
      var rec, rest := recs[0], AssembleLines(recs[1..]);
      LinesBack(recs[1..]);
      LinesCount(rec, rest);
      assert recs == [rec] + recs[1..];
      LineSafeCons(recs);
    }
  }

  lemma LineSafeCons(recs: Records)
    requires recs != []
    ensures LineSafe(recs) <==> LF !in recs[0] && StripCr(recs[0]) == recs[0] && LineSafe(recs[1..])
  {
    assert forall i :: 0 <= i < |recs[1..]| ==> recs[1..][i] == recs[i + 1];
    if LF !in recs[0] && StripCr(recs[0]) == recs[0] && LineSafe(recs[1..]) {
      forall i | 0 <= i < |recs|
        ensures LF !in recs[i] && StripCr(recs[i]) == recs[i]
      {
        if i > 0 { assert recs[i] == recs[1..][i - 1]; }
      }
    }
  }

  // ---------------------------------------------------------------- fixed

  predicate AllOfSize(recs: Records, size: nat) {
    forall i :: 0 <= i < |recs| ==> |recs[i]| == size
  }

  lemma {:induction false} ChunksBack(recs: Records, size: nat)
    requires size > 0 && AllOfSize(recs, size)
    ensures |AssembleFixed(recs)| == |recs| * size
    ensures Chunks(AssembleFixed(recs), size) == recs
  {
    if recs != [] {
      var rest := AssembleFixed(recs[1..]);
      ChunksBack(recs[1..], size);
      assert (recs[0] + rest)[..size] == recs[0] && (recs[0] + rest)[size..] == rest;
      assert recs == [recs[0]] + recs[1..];
      if rest == [] { assert recs[1..] == []; assert recs[0] + rest == recs[0]; }
    }
  }

  lemma {:induction false} ChunkSizes(data: seq<Byte>, size: nat)
    requires size > 0 && |data| % size == 0
    ensures AllOfSize(Chunks(data, size), size)
    decreases |data|
  {
    if |data| > size {
      ChunkRest(|data|, size);
      ChunkSizes(data[size..], size);
    } else if data != [] {
      ChunkLast(|data|, size);
    }
  }

  lemma ChunkRest(n: nat, size: nat)
    requires size > 0 && n % size == 0 && n > size
    ensures (n - size) % size == 0
  {
    var q := n / size;
    assert n == size * q;
    assert n - size == size * (q - 1);
    MultipleMod(q - 1, size);
  }

  lemma ChunkLast(n: nat, size: nat)
    requires size > 0 && n % size == 0 && 0 < n <= size
    ensures n == size
  {
    assert n == size * (n / size);
  }

  lemma FixedBack(recs: Records, size: nat)
    ensures FixedRecords(AssembleFixed(recs), size) == Ok(recs) <==> size > 0 && AllOfSize(recs, size)
  {
    if size > 0 && AllOfSize(recs, size) {
      ChunksBack(recs, size);
      assert |recs| * size == size * |recs|;
      MultipleMod(|recs|, size);
    }
    if FixedRecords(AssembleFixed(recs), size) == Ok(recs) {
      ChunkSizes(AssembleFixed(recs), size);
    }
  }

  // ---------------------------------------------------------------- descriptor words

  const MAX_RDW: nat := 65531

  predicate AllShort(recs: Records) {
    forall i :: 0 <= i < |recs| ==> |recs[i]| <= MAX_RDW
  }

  lemma ReadDescriptor(len: nat, rest: seq<Byte>)
    ensures DescriptorLen(Descriptor(len) + rest) == if len % 65536 < 4 then Err else Ok(len % 65536)
  {
    var bs := Descriptor(len) + rest;
    assert bs[0] == len / 256 % 256 && bs[1] == len % 256;
    TwoBytes(len);
  }

  /** The low two bytes of a number are the number modulo 65536. */
  lemma TwoBytes(len: nat)
    ensures 256 * (len / 256 % 256) + len % 256 == len % 65536
  {
    var q := len / 256;
    assert len == 256 * q + len % 256 && q == 256 * (q / 256) + q % 256;
    assert len == 65536 * (q / 256) + (256 * (q % 256) + len % 256);
  }

  lemma {:induction false} RdwLength(recs: Records)
    ensures |AssembleRdw(recs)| == RdwSize(recs)
  {
    if recs != [] { RdwLength(recs[1..]); }
  }

  /** The sixteen-bit length word: records come back exactly when each is at most 65531 bytes. */
  lemma {:induction false} RdwBack(recs: Records)
    ensures RdwRecords(AssembleRdw(recs)) == Ok(recs) <==> AllShort(recs)
  {
    hide RdwRecords, Descriptor, DescriptorLen, AllShort;
    if recs == [] {
      RdwNothing();
      ShortNothing();
    } else {
      var rec, rest := recs[0], AssembleRdw(recs[1..]);
      var word := Descriptor(|rec| + 4);
      var data := word + rec + rest;
      RdwBack(recs[1..]);
      assert data == word + (rec + rest);
      ReadDescriptor(|rec| + 4, rec + rest);
      RdwCut(data);
      assert recs == [rec] + recs[1..];
      ShortCons(recs);
      if |rec| <= MAX_RDW {
        assert data[4..|rec| + 4] == rec && data[|rec| + 4..] == rest;
      }
    }
  }

  lemma ShortNothing()
    ensures AllShort([])
  {
  }

  lemma ShortCons(recs: Records)
    requires recs != []
    ensures AllShort(recs) <==> |recs[0]| <= MAX_RDW && AllShort(recs[1..])
  {
    if |recs[0]| <= MAX_RDW && AllShort(recs[1..]) {
      forall i | 0 <= i < |recs|
        ensures |recs[i]| <= MAX_RDW
      {
        if i > 0 { assert recs[i] == recs[1..][i - 1]; }
      }
    }
    assert forall i :: 0 <= i < |recs[1..]| ==> recs[1..][i] == recs[i + 1];
  }

  // ---------------------------------------------------------------- blocks: conservation

  /** Successful splitting accounts for every byte: a descriptor and a payload per record. */
  lemma {:induction false} RdwConserves(data: seq<Byte>)
    requires RdwRecords(data).Ok?
    ensures |data| == RdwSize(RdwRecords(data).value)
    decreases |data|
  {
    if data != [] {
      var len := DescriptorLen(data).value;
      RdwConserves(data[len..]);
      var rest := RdwRecords(data[len..]).value;
      assert ([data[4..len]] + rest)[1..] == rest;
    }
  }

  lemma {:induction false} RdwSizeConcat(a: Records, b: Records)
    ensures RdwSize(a + b) == RdwSize(a) + RdwSize(b)
  {
    if a == [] {
      assert a + b == b;
    } else {
      assert (a + b)[1..] == a[1..] + b;
      RdwSizeConcat(a[1..], b);
    }
  }

  /** A blocked stream has at least one more descriptor than its records need, unless it is empty. */
  lemma {:induction false} BlockedConserves(data: seq<Byte>)
    requires BlockedRecords(data).Ok?
    ensures |data| >= RdwSize(BlockedRecords(data).value)
    ensures data != [] ==> |data| >= 4 + RdwSize(BlockedRecords(data).value)
    ensures data != [] && DescriptorLen(data).value < |data| ==> |data| >= 8 + RdwSize(BlockedRecords(data).value)
    decreases |data|
  {
    if data != [] {
      var len := DescriptorLen(data).value;
      RdwConserves(data[4..len]);
      BlockedConserves(data[len..]);
      RdwSizeConcat(RdwRecords(data[4..len]).value, BlockedRecords(data[len..]).value);
    }
  }

  /** The single block comes back exactly when its whole length fits the sixteen-bit block descriptor. */
  lemma BlockedBack(recs: Records)
    ensures BlockedRecords(AssembleBlocked(recs)) == Ok(recs) <==> 4 + RdwSize(recs) <= 65535
  {
    hide RdwRecords, BlockedRecords, AssembleRdw, Descriptor, DescriptorLen, RdwSize, AllShort;
    var total, body := 4 + RdwSize(recs), AssembleRdw(recs);
    var data := Descriptor(total) + body;
    RdwLength(recs);
    ReadDescriptor(total, body);
    BlockedCut(data);
    if total <= 65535 {
      assert data[4..total] == body && data[total..] == [];
      BlockedNothing(recs);
      SmallIsShort(recs);
      RdwBack(recs);
    } else if BlockedRecords(data) == Ok(recs) {
      BlockedConserves(data);
      assert false;
    }
  }

  lemma {:induction false} SmallIsShort(recs: Records)
    requires RdwSize(recs) <= 65531
    ensures AllShort(recs)
  {
    if recs != [] {
      SmallIsShort(recs[1..]);
      ShortCons(recs);
    }
  }

  // ---------------------------------------------------------------- the theorem

  /** The records a framing can carry. */
  predicate Carries(recs: Records, mode: Mode, size: nat) {
    match mode
    case Newline => LineSafe(recs)
    case Fixed => size > 0 && AllOfSize(recs, size)
    case Rdw => AllShort(recs)
    case RdwBlocked => 4 + RdwSize(recs) <= 65535
  }

  /** Splitting undoes assembling exactly on the records the framing can carry. */
  lemma SplitAssembled(recs: Records, mode: Mode, size: nat)
    ensures Split(Assembled(recs, mode), mode, size) == Ok(recs) <==> Carries(recs, mode, size)
  {
    match mode {
      case Newline => LinesBack(recs);
      case Fixed => FixedBack(recs, size);
      case Rdw => RdwBack(recs);
      case RdwBlocked => BlockedBack(recs);
    }
  }

  /** A descriptor shows its length in sixteen bits, the high byte first, before two zero bytes. */
  lemma DescriptorWritten(len: nat)
    requires len < 65_536
    ensures var d := Descriptor(len);
            d[0] as int * 256 + d[1] as int == len && d[2] == 0 && d[3] == 0
  {
  }

  /** The first record stands behind its descriptor, which counts its own four bytes too. */
  lemma RdwStarts(recs: Records)
    requires recs != [] && |recs[0]| + 4 < 65_536
    ensures var body := AssembleRdw(recs);
            |body| >= |recs[0]| + 4 && body[0] as int * 256 + body[1] as int == |recs[0]| + 4 && body[2..4] == [0, 0] &&
            body[4..|recs[0]| + 4] == recs[0] && body[|recs[0]| + 4..] == AssembleRdw(recs[1..])
  {
    var d, rest := Descriptor(|recs[0]| + 4), AssembleRdw(recs[1..]);
    hide AssembleRdw;
    DescriptorWritten(|recs[0]| + 4);
    RdwCons(recs);
    assert (d + recs[0] + rest)[..4] == d;
  }

  lemma RdwCons(recs: Records)
    requires recs != []
    ensures AssembleRdw(recs) == Descriptor(|recs[0]| + 4) + recs[0] + AssembleRdw(recs[1..])
  {
  }
}
