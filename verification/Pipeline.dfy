/** From rows to a file and back: encoding, framing, streaming and scanning composed. */
module Pipeline {
  import opened Prelude
  import opened Layouts
  import opened Framing
  import opened RecordWriter
  import opened Ebcdic
  import Decode
  import Encode
  import Normal
  import Reader
  import RoundTrip
  import Stream

  /** Every row has all its columns and only storable values. */
  ghost predicate Storable(layout: Layout, rows: seq<Pairs>) {
    forall i :: 0 <= i < |rows| ==>
      Encode.Supplied(layout.fields, rows[i]) && Normal.InSeq(layout.fields, rows[i], map[])
  }

  ghost predicate Encodes(layout: Layout, rows: seq<Pairs>, enc: Encoding) {
    forall i :: 0 <= i < |rows| ==> Encode.EncodeRecord(layout, rows[i], enc).Ok?
  }

  /** The rows' records. */
  ghost function Encoded(layout: Layout, rows: seq<Pairs>, enc: Encoding): (recs: Records)
    requires Encodes(layout, rows, enc)
    ensures |recs| == |rows|
  {
    seq(|rows|, i requires 0 <= i < |rows| => Encode.EncodeRecord(layout, rows[i], enc).value)
  }

  /** The rows in normal form. */
  ghost function Normals(layout: Layout, rows: seq<Pairs>): (out: seq<Pairs>)
    ensures |out| == |rows|
  {
    seq(|rows|, i requires 0 <= i < |rows| => Normal.NormSeq(layout.fields, rows[i], map[]).pairs)
  }

  function RowDecoder(layout: Layout, enc: Encoding): seq<Byte> -> Result<Pairs> {
    rec => Decode.DecodeRecord(layout, rec, enc)
  }

  /** Draining good items gives the rows exactly when every item decodes to its row. */
  lemma {:induction false} DrainAll<Rec, Row>(
    recs: seq<Rec>, rows: seq<Row>, items: seq<Result<Rec>>, decode: Rec -> Result<Row>
  )
    requires |recs| == |rows| == |items| && forall i :: 0 <= i < |recs| ==> items[i] == Ok(recs[i])
    ensures Reader.Drain(items, decode) == Reader.Outcome(rows, true)
       <==> forall i :: 0 <= i < |recs| ==> decode(recs[i]) == Ok(rows[i])
  {
    if recs != [] {
      DrainAll(recs[1..], rows[1..], items[1..], decode);
      assert [rows[0]] + rows[1..] == rows;
      var rest := Reader.Drain(items[1..], decode);
      if decode(recs[0]).Ok? {
        assert ([decode(recs[0]).value] + rest.rows)[1..] == rest.rows;
      }
      if forall i :: 0 <= i < |recs| ==> decode(recs[i]) == Ok(rows[i]) {
        assert forall i :: 0 <= i < |recs[1..]| ==> recs[1..][i] == recs[i + 1] && rows[1..][i] == rows[i + 1];
      }
      if forall i :: 0 <= i < |recs[1..]| ==> decode(recs[1..][i]) == Ok(rows[1..][i]) {
        forall i | 0 < i < |recs|
          ensures decode(recs[i]) == Ok(rows[i])
        {
          assert recs[1..][i - 1] == recs[i] && rows[1..][i - 1] == rows[i];
        }
      }
    }
  }

  /** Every row's fields read back from what overlays leave of them. */
  ghost predicate AllReadBack(layout: Layout, rows: seq<Pairs>, enc: Encoding) {
    forall i :: 0 <= i < |rows| ==>
      var p := Encode.PlanSeq(layout.fields, 0, 0, 0, rows[i], enc);
      p.Ok? && RoundTrip.ReadsBack(p.value.writes, enc)
  }

  /**
   The file round trip. Rows framed so that the framing can carry them are read back, by any stream
   over the file, as the same rows in normal form exactly when the fields of every row read back from
   what overlays leave of them; under an ordered layout they always do.
   */
  lemma FileRoundTrip(layout: Layout, rows: seq<Pairs>, enc: Encoding, mode: Mode, size: nat)
    requires Storable(layout, rows)
    ensures Encodes(layout, rows, enc)
    ensures var recs := Encoded(layout, rows, enc);
            Carries(recs, mode, size) ==>
              (var file := Assembled(recs, mode);
               AllReadBack(layout, rows, enc) <==>
                 Reader.Eager([Reader.Location(true, Stream.Expected(file, mode, size))], RowDecoder(layout, enc))
                 == Ok(Normals(layout, rows)))
    ensures RoundTrip.Ordered(layout.fields) ==> AllReadBack(layout, rows, enc)
  {
    hide Encode.EncodeRecord, Decode.DecodeRecord, Normal.NormSeq, Normal.InSeq, Encode.Supplied, RoundTrip.Ordered;
    hide Carries, Assembled, Split, Encode.PlanSeq, RoundTrip.ReadsBack, RoundTrip.LastAgrees, RoundTrip.Holds;
    forall i | 0 <= i < |rows|
      ensures Encode.EncodeRecord(layout, rows[i], enc).Ok?
      ensures var p := Encode.PlanSeq(layout.fields, 0, 0, 0, rows[i], enc);
              p.Ok? &&
              (RoundTrip.ReadsBack(p.value.writes, enc) <==>
                 Decode.DecodeRecord(layout, Encode.EncodeRecord(layout, rows[i], enc).value, enc)
                 == Ok(Normals(layout, rows)[i])) &&
              (RoundTrip.Ordered(layout.fields) ==> RoundTrip.ReadsBack(p.value.writes, enc))
    {
      RoundTrip.OverlayRoundTrip(layout, rows[i], enc);
      if RoundTrip.Ordered(layout.fields) { RoundTrip.OrderedAgrees(layout, rows[i], enc); }
    }
    assert Encodes(layout, rows, enc);
    var recs := Encoded(layout, rows, enc);
    if Carries(recs, mode, size) {
      SplitAssembled(recs, mode, size);
      var items := Stream.Expected(Assembled(recs, mode), mode, size);
      OneLocation(recs, Normals(layout, rows), items, RowDecoder(layout, enc));
    }
  }

  lemma OneLocation<Rec, Row>(recs: seq<Rec>, rows: seq<Row>, items: seq<Result<Rec>>, decode: Rec -> Result<Row>)
    requires |recs| == |rows| == |items| && forall i :: 0 <= i < |recs| ==> items[i] == Ok(recs[i])
    ensures Reader.Eager([Reader.Location(true, items)], decode) == Ok(rows)
       <==> forall i :: 0 <= i < |recs| ==> decode(recs[i]) == Ok(rows[i])
  {
    DrainAll(recs, rows, items, decode);
    var sources := [Reader.Location(true, items)];
    assert sources[0].items[0..] == items;
    assert Reader.Flow(sources, 1, 0, decode) == Reader.Outcome([], true);
    var drained := Reader.Drain(items, decode);
    assert drained.rows + [] == drained.rows;
  }
}
