/**
 A reader over a remote object that fetches it range by range. The store may answer a range with any
 non-empty prefix of it; the reader still delivers exactly the object's bytes.
 */
module RangeReader {
  import opened Prelude

  /** Bytes asked for per request. */
  const REMOTE_CHUNK: nat := 8 * 1024 * 1024

  /** What the store does with a request it could serve: a prefix of about that many bytes, or a failure. */
  datatype Answer = Prefix(n: nat) | Failure

  /** An object store holding one object. */
  class Store {
    const content: seq<Byte>
    var answers: seq<Answer>

    constructor (content: seq<Byte>, answers: seq<Answer>)
      ensures this.content == content && this.answers == answers
    {
      this.content := content;
      this.answers := answers;
    }

    /** No request to come will fail. */
    predicate Reliable()
      reads this
    {
      Failure !in answers
    }

    method NextAnswer() returns (a: Answer)
      modifies this`answers
      ensures old(Reliable()) ==> Reliable() && a.Prefix?
    {
      if answers == [] {
        return Prefix(REMOTE_CHUNK);
      }
      a := answers[0];
      answers := answers[1..];
    }

    /** A non-empty prefix of the range; a range that starts past the end cannot be satisfied. */
    method GetRange(start: nat, end: nat) returns (r: Option<seq<Byte>>)
      requires start < end
      modifies this`answers
      ensures start >= |content| ==> r == None
      ensures r.Some? ==>
        0 < |r.value| <= end - start && start + |r.value| <= |content| &&
        r.value == content[start..start + |r.value|]
      ensures old(Reliable()) ==> Reliable() && (start < |content| ==> r.Some?)
    {
      var a := NextAnswer();
      if start >= |content| || a.Failure? {
        return None;
      }
      var n := Max(1, Min(a.n, Min(end, |content|) - start));
      return Some(content[start..start + n]);
    }

    /** The object's size. */
    method Head() returns (r: Option<nat>)
      modifies this`answers
      ensures r.Some? ==> r.value == |content|
      ensures old(Reliable()) ==> Reliable() && r.Some?
    {
      var a := NextAnswer();
      return if a.Failure? then None else Some(|content|);
    }
  }

  /** `copy_from_slice` into the front of an array. */
  method CopyInto(out: array<Byte>, src: seq<Byte>)
    requires |src| <= out.Length
    modifies out
    ensures out[..|src|] == src && out[|src|..] == old(out[|src|..])
  {
    for i := 0 to |src|
      invariant out[..i] == src[..i]
      invariant forall k :: i <= k < out.Length ==> out[k] == old(out[k])
    {
      out[i] := src[i];
    }
  }

  class Reader {
    const store: Store
    /** The object's size, once a response has told it. */
    var size: Option<nat>
    /** The next byte to fetch. */
    var pos: nat
    /** The fetched chunk, and how much of it has been handed out. */
    var buf: seq<Byte>
    var off: nat

    constructor (store: Store)
      ensures this.store == store && Valid() && Delivered() == 0
    {
      this.store := store;
      size := None;
      pos := 0;
      buf := [];
      off := 0;
    }

    /** The chunk is the stretch of the object that ends where the next fetch starts. */
    predicate Valid()
      reads this
    {
      off <= |buf| <= pos <= |store.content| && buf == store.content[pos - |buf|..pos] &&
      (size.Some? ==> size.value == |store.content|) && (size.None? ==> pos == 0)
    }

    /** How many bytes have been handed out. */
    function Delivered(): nat
      requires Valid()
      reads this
    {
      pos - (|buf| - off)
    }

    /** What has been handed out and the rest of the chunk are exactly what has been fetched. */
    lemma Conserved()
      requires Valid()
      ensures store.content[..Delivered()] + buf[off..] == store.content[..pos]
    {
      var content := store.content;
      assert content[..pos] == content[..Delivered()] + content[Delivered()..pos];
      assert buf[off..] == content[Delivered()..pos];
    }

    /** Fetches the next chunk once the current one is used up; true at the end of the object. */
    method Refill() returns (r: Result<bool>)
      requires Valid() && off == |buf|
      modifies this, store
      ensures Valid() && Delivered() == old(Delivered()) && (old(store.Reliable()) ==> store.Reliable() && r.Ok?)
      ensures r == Ok(true) ==> pos == |store.content| && pos == old(pos) && off == |buf|
      ensures r == Ok(false) ==> pos > old(pos) && off < |buf|
    {
      if size.Some? && pos >= size.value {
        return Ok(true);
      }
      var end := if size.Some? then Min(pos + REMOTE_CHUNK, size.value) else pos + REMOTE_CHUNK;
      var fetched := store.GetRange(pos, end);
      if fetched.None? {
        if size.None? {
          var meta := store.Head();
          if meta == Some(0) {
            size := Some(0);
            return Ok(true);
          }
        }
        return Err;
      }
      size := Some(|store.content|);
      buf := fetched.value;
      pos := pos + |buf|;
      off := 0;
      return Ok(false);
    }

    /** Hands out the front of what is left of the chunk. */
    method HandOut(out: array<Byte>) returns (n: nat)
      requires Valid()
      modifies this`off, out
      ensures Valid() && n == Min(old(|buf| - off), out.Length) && Delivered() == old(Delivered()) + n
      ensures Delivered() <= |store.content| && out[..n] == store.content[old(Delivered())..Delivered()]
      ensures out[n..] == old(out[n..])
    {
      ghost var start := Delivered();
      n := Min(|buf| - off, out.Length);
      NextBytes(n);
      var piece := buf[off..off + n];
      off := off + n;
      assert Valid() && Delivered() == start + n;
      assert |piece| == n && piece == store.content[start..start + n];
      hide Valid, Delivered;
      CopyInto(out, piece);
    }

    /** `read`: the next bytes of the object, none only at its end or into an empty buffer. */
    method Read(out: array<Byte>) returns (r: Result<nat>)
      requires Valid()
      modifies this, store, out
      ensures Valid() && (old(store.Reliable()) ==> store.Reliable() && r.Ok?)
      ensures r.Err? ==> Delivered() == old(Delivered()) && out[..] == old(out[..])
      ensures r.Ok? ==>
        r.value <= out.Length && Delivered() == old(Delivered()) + r.value <= |store.content| &&
        out[..r.value] == store.content[old(Delivered())..Delivered()] && out[r.value..] == old(out[r.value..])
      ensures r.Ok? && out.Length > 0 ==> (r.value == 0 <==> old(Delivered()) == |store.content|)
    {
      Bounds();
      hide Valid, Store.Reliable;
      if off >= |buf| {
        var end := Refill();
        Bounds();
        if end.Err? {
          return Err;
        }
        if end.value {
          return Ok(0);
        }
      }
      var n := HandOut(out);
      return Ok(n);
    }

    lemma Bounds()
      requires Valid()
      ensures off <= |buf| <= pos <= |store.content|
    {
    }

    lemma NextBytes(n: nat)
      requires Valid() && off + n <= |buf|
      ensures buf[off..off + n] == store.content[Delivered()..Delivered() + n]
    {
    }
  }

  /**
   Reading to the end, with a buffer of any non-zero size at every call, gives exactly the object, no
   matter how short the store's answers are.
   */
  method ReadObject(store: Store, sizes: nat -> nat) returns (data: seq<Byte>)
    requires store.Reliable() && forall i :: sizes(i) > 0
    modifies store
    ensures data == store.content
  {
    var reader := new Reader(store);
    data := [];
    var calls := 0;
    hide Reader.Valid, Reader.Delivered, Store.Reliable;
    while true
      invariant reader.store == store && fresh(reader) && reader.Valid() && store.Reliable()
      invariant reader.Delivered() <= |store.content| && data == store.content[..reader.Delivered()]
      decreases |store.content| - reader.Delivered()
    {
      var out := new Byte[sizes(calls)](_ => 0);
      ghost var before := reader.Delivered();
      var n := reader.Read(out);
      if n.value == 0 {
        return;
      }
      Extended(store.content, before, reader.Delivered());
      data := data + out[..n.value];
      calls := calls + 1;
    }
  }

  lemma Extended(s: seq<Byte>, i: nat, j: nat)
    requires i <= j <= |s|
    ensures s[..j] == s[..i] + s[i..j]
  {
  }
}
