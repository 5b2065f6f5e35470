/** The generated fuzz harness: parse, serialize, re-parse, re-serialize, and trap on any difference. */
module FuzzHarness {
  import opened Bytes
  import opened Outcome
  import opened Expr
  import opened Codec
  import opened RoundTrip
  import opened Runtime
  import PC = ParseCode
  import SC = SerializeCode

  const BUFFER: nat := 65536

  /** Whether the harness traps on an input. */
  function Traps(t: Type, b: bytes): bool {
    match ParseType(t, b)
    case Err(_) => false
    case Ok((v, _)) =>
      match SerType(t, v)
      case None => false
      case Some(e) =>
        if |e| > BUFFER then false
        else match ParseType(t, e)
        case Err(_) => true
        case Ok((v', r)) => r != [] || SerType(t, v') != Some(e)
  }

  /** The bytes are read whole as something that is written so. */
  ghost predicate ReadBack(t: Type, e: bytes) {
    exists w :: ParseType(t, e) == Ok((w, [])) && SerType(t, w) == Some(e)
  }

  /** What is read and written, in a buffer of 65536 bytes, must be read back. */
  lemma {:induction false} TrapsIs(t: Type, b: bytes, v: Val, r: bytes, e: bytes)
    requires ParseType(t, b) == Ok((v, r)) && SerType(t, v) == Some(e)
    ensures Traps(t, b) <==> |e| <= 0x1_0000 && !ReadBack(t, e)
  {
  }

  lemma {:induction false} WrittenPrefix(w: Writer, whole: bytes, e: bytes)
    requires |e| <= |whole| && Wrote(w, whole, 0, e)
    ensures w.buf[..w.pos] == e
  {
    assert w.buf[..w.pos] == w.buf[..][..w.pos];
  }

  /** A serialization into a buffer of the harness. */
  method SerializeInto(t: Type, v: Val) returns (r: Result<bytes>)
    ensures match SerType(t, v)
            case None => r.Err?
            case Some(e) => if |e| <= BUFFER then r == Ok(e) else r.Err?
  {
    var buf := new byte[BUFFER](_ => 0);
    var w := new Writer(buf);
    ghost var whole := buf[..];
    var s := SC.Serialize(t, v, w);
    if s.Err? {
      return Err(s.error);
    }
    WrittenPrefix(w, whole, SerType(t, v).value);
    r := Ok(buf[..w.pos]);
  }

  /** A parse of the whole input, with the number of bytes it leaves. */
  method ParseFrom(t: Type, data: bytes) returns (r: Result<(Val, nat)>)
    ensures var p := ParseType(t, data);
            if p.Err? then r == Err(p.error) else r == Ok((p.value.0, |p.value.1|))
  {
    var cur := new Cursor(data);
    var obj :- PC.Parse(t, cur);
    var unread := cur.Remaining();
    r := Ok((obj, unread));
  }

  /** The harness itself. */
  method TestOneInput(t: Type, data: bytes) returns (trap: bool)
    ensures trap == Traps(t, data)
  {
    var obj := ParseFrom(t, data);
    if obj.Err? {
      return false;
    }
    var written := SerializeInto(t, obj.value.0);
    if written.Err? {
      return false;
    }
    var obj2 := ParseFrom(t, written.value);
    if obj2.Err? || obj2.value.1 != 0 {
      return true;
    }
    var written2 := SerializeInto(t, obj2.value.0);
    trap := written2.Err? || written.value != written2.value;
  }
}
