/** The cursor and the writer that generated code runs on. */
module Runtime {
  import opened Bits
  import opened Bytes
  import opened Outcome

  /** Sequential reads from a byte slice; a sub-cursor is a cursor of its own over part of the slice. */
  class Cursor {
    const data: bytes
    var pos: nat

    ghost predicate Valid()
      reads this
    {
      pos <= |data|
    }

    /** What has not been read yet. */
    ghost function Rest(): (b: bytes)
      requires Valid()
      reads this
    {
      data[pos..]
    }

    constructor (data: bytes)
      ensures Valid() && this.data == data && pos == 0 && Rest() == data
    {
      this.data := data;
      pos := 0;
    }

    method Remaining() returns (n: nat)
      requires Valid()
      ensures n == |Rest()|
    {
      n := |data| - pos;
    }

    method ReadBytes(n: nat) returns (r: Result<bytes>)
      requires Valid()
      modifies this
      ensures Valid()
      ensures r == if n <= |old(Rest())| then Ok(old(Rest())[..n]) else Err(ShortBuffer)
      ensures Rest() == if r.Ok? then old(Rest())[n..] else old(Rest())
    {
      if pos + n > |data| {
        return Err(ShortBuffer);
      }
      assert data[pos..][..n] == data[pos..pos + n];
      r := Ok(data[pos..pos + n]);
      pos := pos + n;
    }

    method ReadByte() returns (r: Result<byte>)
      requires Valid()
      modifies this
      ensures Valid()
      ensures r == if old(Rest()) != [] then Ok(old(Rest())[0]) else Err(ShortBuffer)
      ensures Rest() == if r.Ok? then old(Rest())[1..] else old(Rest())
    {
      var b :- ReadBytes(1);
      r := Ok(b[0]);
    }

    method ReadUint(n: nat, bigEndian: bool) returns (r: Result<nat>)
      requires Valid()
      modifies this
      ensures Valid()
      ensures n > |old(Rest())| ==> r == Err(ShortBuffer)
      ensures n <= |old(Rest())| ==>
                && r == Ok(if bigEndian then FromBE(old(Rest())[..n]) else FromLE(old(Rest())[..n]))
                && Rest() == old(Rest())[n..]
    {
      var b :- ReadBytes(n);
      r := Ok(if bigEndian then FromBE(b) else FromLE(b));
    }

    method ReadRemaining() returns (b: bytes)
      requires Valid()
      modifies this
      ensures Valid() && b == old(Rest()) && Rest() == []
    {
      b := data[pos..];
      pos := |data|;
    }

    method SubCursor(n: nat) returns (r: Result<Cursor>)
      requires Valid()
      modifies this
      ensures Valid()
      ensures r.Ok? <==> n <= |old(Rest())|
      ensures r.Ok? ==> fresh(r.value) && r.value.Valid() && r.value.Rest() == old(Rest())[..n] && Rest() == old(Rest())[n..]
      ensures r.Err? ==> r.error == ShortBuffer && Rest() == old(Rest())
    {
      var b :- ReadBytes(n);
      var sub := new Cursor(b);
      r := Ok(sub);
    }
  }

  /** The buffer `whole` with `e` put at `start`. */
  function Splice(whole: bytes, start: nat, e: bytes): (b: bytes)
    requires start + |e| <= |whole|
    ensures |b| == |whole|
  {
    whole[..start] + e + whole[start + |e|..]
  }

  lemma {:induction false} SpliceTwice(whole: bytes, start: nat, e: bytes, f: bytes)
    requires start + |e| + |f| <= |whole|
    ensures Splice(Splice(whole, start, e), start + |e|, f) == Splice(whole, start, e + f)
  {
  }

  lemma {:induction false} SpliceOne(whole: bytes, k: nat, x: byte)
    requires k < |whole|
    ensures whole[k := x] == Splice(whole, k, [x])
  {
  }

  lemma {:induction false} SpliceNext(whole: bytes, start: nat, e: bytes, i: nat)
    requires i < |e| && start + i < |whole|
    ensures Splice(Splice(whole, start, e[..i]), start + i, [e[i]]) == Splice(whole, start, e[..i + 1])
  {
    SpliceTwice(whole, start, e[..i], [e[i]]);
    assert e[..i] + [e[i]] == e[..i + 1];
  }

  lemma {:induction false} SpliceKeeps(whole: bytes, start: nat, e: bytes)
    requires start + |e| <= |whole|
    ensures Splice(whole, start, e)[..start] == whole[..start]
  {
  }

  lemma {:induction false} SpliceSlice(whole: bytes, start: nat, e: bytes)
    requires start + |e| <= |whole|
    ensures Splice(whole, start, e)[start..start + |e|] == e
  {
  }

  lemma {:induction false} SpliceNothing(whole: bytes, start: nat)
    requires start <= |whole|
    ensures Splice(whole, start, []) == whole
  {
  }

  /** Sequential writes into a buffer of fixed size. */
  class Writer {
    const buf: array<byte>
    var pos: nat

    ghost predicate Valid()
      reads this
    {
      pos <= buf.Length
    }

    constructor (buf: array<byte>)
      ensures Valid() && this.buf == buf && pos == 0
    {
      this.buf := buf;
      pos := 0;
    }

    /** The whole of `e` goes after what was written and nothing else changes, or there is no room and
        nothing changes. */
    method Write(e: bytes) returns (r: Result<()>)
      requires Valid()
      modifies this, buf
      ensures Valid()
      ensures r == if old(pos) + |e| <= buf.Length then Ok(()) else Err(ShortBuffer)
      ensures r.Ok? ==> pos == old(pos) + |e| && buf[..] == Splice(old(buf[..]), old(pos), e)
      ensures r.Err? ==> pos == old(pos) && buf[..] == old(buf[..])
    {
      if pos + |e| > buf.Length {
        return Err(ShortBuffer);
      }
      Overwrite(pos, e);
      pos := pos + |e|;
      r := Ok(());
    }

    /** Replaces bytes already in the buffer. */
    method Overwrite(start: nat, e: bytes)
      requires start + |e| <= buf.Length
      modifies buf
      ensures buf[..] == Splice(old(buf[..]), start, e)
    {
      for i := 0 to |e|
        invariant buf[..] == Splice(old(buf[..]), start, e[..i])
      {
        ghost var was := buf[..];
        buf[start + i] := e[i];
        assert buf[..] == was[start + i := e[i]];
        SpliceOne(was, start + i, e[i]);
        SpliceNext(old(buf[..]), start, e, i);
      }
      assert e[..|e|] == e;
    }

    method WriteByte(b: byte) returns (r: Result<()>)
      requires Valid()
      modifies this, buf
      ensures Valid()
      ensures r == if old(pos) < buf.Length then Ok(()) else Err(ShortBuffer)
      ensures r.Ok? ==> pos == old(pos) + 1 && buf[..] == Splice(old(buf[..]), old(pos), [b])
      ensures r.Err? ==> pos == old(pos) && buf[..] == old(buf[..])
    {
      r := Write([b]);
    }

    method WriteUint(n: nat, bigEndian: bool, v: nat) returns (r: Result<()>)
      requires Valid()
      modifies this, buf
      ensures Valid()
      ensures r == if old(pos) + n <= buf.Length then Ok(()) else Err(ShortBuffer)
      ensures r.Ok? ==> pos == old(pos) + n && buf[..] == Splice(old(buf[..]), old(pos), if bigEndian then ToBE(n, v) else ToLE(n, v))
      ensures r.Err? ==> pos == old(pos) && buf[..] == old(buf[..])
    {
      r := Write(if bigEndian then ToBE(n, v) else ToLE(n, v));
    }
  }

  /** Exactly `e` was written at `start` of a buffer that held `whole`. */
  ghost predicate Wrote(w: Writer, whole: bytes, start: nat, e: bytes)
    reads w, w.buf
  {
    && w.Valid() && |whole| == w.buf.Length && w.pos == start + |e|
    && w.buf[..] == Splice(whole, start, e)
  }

  /** What was there before `start` still is. */
  ghost predicate Kept(w: Writer, whole: bytes, start: nat)
    reads w, w.buf
  {
    && w.Valid() && |whole| == w.buf.Length && start <= w.pos
    && w.buf[..start] == whole[..start]
  }
}
