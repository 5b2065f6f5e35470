/** The emitted varint functions as code: reads and writes a byte at a time, values assembled with
    shifts, masks and ors. */
module VarIntCode {
  import opened Bits
  import opened Bytes
  import opened Outcome
  import opened Runtime
  import PV = PrefixVarInt
  import CV = ContVarInt

  lemma {:induction false} FromBEAppend(b: bytes, x: byte)
    ensures FromBE(b + [x]) == Join(FromBE(b), 256, x)
  {
    if b == [] {
      assert b + [x] == [x] && [x][1..] == [];
      assert Pow256(0) == 1;
      JoinIs(x, 1, 0);
    } else {
      FromBEAppend(b[1..], x);
      assert (b + [x])[1..] == b[1..] + [x];
      JoinAssoc(b[0], Pow256(|b| - 1), FromBE(b[1..]), 256, x);
    }
  }

  /** One more byte: `val |= x << shift`. */
  lemma {:induction false} OrByte(v: nat, x: byte, k: nat)
    ensures Or(Join(v, Pow2(8 * k + 8), 0), Join(x, Pow2(8 * k), 0)) == Join(Join(v, 256, x), Pow2(8 * k), 0)
  {
    var p := Pow2(8 * k);
    Pow2Add(8, 8 * k);
    assert Pow2(8) == 256 by { Pow2Add(4, 4); }
    JoinAssoc(v, 256, 0, p, 0);
    JoinAssoc(v, 256, x, p, 0);
    JoinIs(0, p, 0);
    JoinIs(x, p, 0);
    MulLt(x, 256, p, 0);
    OrDisjoint(v, Join(x, p, 0), 8 * k + 8);
  }

  /** The accumulator after the bytes `read`, with `left` bytes still to come. */
  function Assembled(top: nat, read: bytes, left: nat): nat {
    Join(Join(top, Pow256(|read|), FromBE(read)), Pow2(8 * left), 0)
  }

  lemma {:induction false} AssembleByte(top: nat, read: bytes, x: byte, left: nat)
    ensures Or(Assembled(top, read, left + 1), Join(x, Pow2(8 * left), 0)) == Assembled(top, read + [x], left)
  {
    OrByte(Join(top, Pow256(|read|), FromBE(read)), x, left);
    FromBEAppend(read, x);
    JoinAssoc(top, Pow256(|read|), FromBE(read), 256, x);
  }

  lemma {:induction false} AssembledEnds(top: nat, read: bytes, left: nat)
    ensures Assembled(top, [], left) == Join(top, Pow2(8 * left), 0)
    ensures Assembled(top, read, 0) == Join(top, Pow256(|read|), FromBE(read))
  {
    JoinIs(top, 1, 0);
    assert Pow256(0) == 1;
    JoinIs(Join(top, Pow256(|read|), FromBE(read)), 1, 0);
  }

  method ReadTail(cur: Cursor, start: nat, n: nat, ghost top: nat) returns (r: Result<nat>)
    requires cur.Valid() && n >= 1 && start == Assembled(top, [], n - 1)
    modifies cur
    ensures cur.Valid()
    ensures var b := old(cur.Rest());
            if |b| < n - 1 then r == Err(ShortBuffer)
            else r == Ok(Join(top, Pow256(n - 1), FromBE(b[..n - 1]))) && cur.Rest() == b[n - 1..]
  {
    ghost var b := cur.Rest();
    var val := start;
    for j := 1 to n
      invariant cur.Valid() && j - 1 <= |b| && cur.Rest() == b[j - 1..]
      invariant val == Assembled(top, b[..j - 1], n - j)
    {
      var x :- cur.ReadByte();
      val := Or(val, Join(x, Pow2(8 * (n - 1 - j)), 0));
      AssembleByte(top, b[..j - 1], x, n - 1 - j);
      assert b[..j - 1] + [x] == b[..j];
    }
    AssembledEnds(top, b[..n - 1], 0);
    r := Ok(val);
  }

  lemma {:induction false} ParseBranch(s: PV.Table, b: bytes, i: nat, n: nat)
    requires PV.Valid(s) && b != [] && i == PV.Find(s.branches, Quot(b[0], PV.FirstBits(s))) < |s.branches|
    requires n == s.branches[i].totalBytes
    ensures |b| < n ==> PV.Parse(s, b) == Err(ShortBuffer)
    ensures |b| >= n ==>
              var v := Join(Rem(b[0], PV.FirstBits(s)), Pow256(n - 1), FromBE(b[1..][..n - 1]));
              PV.Parse(s, b) == if s.strict && i > 0 && v <= s.branches[i - 1].Max() then Err(Noncanonical) else Ok((v, b[1..][n - 1..]))
  {
    if |b| >= n {
      assert b[1..][..n - 1] == b[1..n] && b[1..][n - 1..] == b[n..];
    }
  }

  lemma {:induction false} FirstByteValue(s: PV.Table, first: byte, n: nat)
    requires PV.Valid(s) && n >= 1
    ensures var top := And(first, PV.FirstBits(s) - 1);
            top == Rem(first, PV.FirstBits(s)) && Join(top, Pow2(8 * (n - 1)), 0) == Assembled(top, [], n - 1)
  {
    AndMask(first, 8 - s.prefixBits);
    AssembledEnds(And(first, PV.FirstBits(s) - 1), [], n - 1);
  }

  method ParsePrefix(s: PV.Table, cur: Cursor) returns (r: Result<nat>)
    requires PV.Valid(s) && cur.Valid()
    modifies cur
    ensures cur.Valid()
    ensures PV.Parse(s, old(cur.Rest())) == match r case Ok(v) => Ok((v, cur.Rest())) case Err(e) => Err(e)
  {
    ghost var b := cur.Rest();
    var first :- cur.ReadByte();
    var prefix := Quot(first, PV.FirstBits(s));
    var i := PV.Find(s.branches, prefix);
    if i == |s.branches| {
      return Err(InvalidTag);
    }
    var n := s.branches[i].totalBytes;
    ParseBranch(s, b, i, n);
    var top := And(first, PV.FirstBits(s) - 1);
    FirstByteValue(s, first, n);
    var val :- ReadTail(cur, Join(top, Pow2(8 * (n - 1)), 0), n, top);
    if s.strict && i > 0 && val <= s.branches[i - 1].Max() {
      return Err(Noncanonical);
    }
    r := Ok(val);
  }

  lemma {:induction false} Pow256Add(a: nat, b: nat)
    ensures Pow256(a + b) == Pow256(a) * Pow256(b)
  {
    Pow256IsPow2(a + b);
    Pow256IsPow2(a);
    Pow256IsPow2(b);
    Pow2Add(8 * a, 8 * b);
  }

  lemma {:induction false} RemRem(n: nat, m: nat, d: nat)
    requires m > 0 && d > 0 && m * d > 0
    ensures Rem(Rem(n, m * d), d) == Rem(n, d)
    ensures Quot(Rem(n, m * d), d) == Rem(Quot(n, d), m)
  {
    SplitTwice(n, m, d);
    JoinSplit(Rem(Quot(n, d), m), d, Rem(n, d));
  }

  /** Byte j of the big-endian form is `(uint8_t)(v >> shift)`. */
  lemma {:induction false} ToBEByte(n: nat, v: nat, j: nat)
    requires j < n
    ensures ToBE(n, v)[j] == Rem(Quot(v, Pow256(n - 1 - j)), 256)
  {
    if j > 0 {
      ToBEByte(n - 1, Rem(v, Pow256(n - 1)), j - 1);
      MiddleByte(v, j, n - 1 - j);
    }
  }

  lemma {:induction false} EncodeFirst(s: PV.Table, br: PV.Branch, v: nat)
    requires 1 <= s.prefixBits <= 8 && PV.ValidBranch(s.prefixBits, br) && v <= br.Max()
    ensures PV.Encode(s, br, v)[0] == Or(Join(br.prefix, PV.FirstBits(s), 0), Quot(v, Pow2(8 * (br.totalBytes - 1))))
  {
    Pow256IsPow2(br.totalBytes - 1);
    PV.FirstByteFits(s, br, v);
    OrDisjoint(br.prefix, Quot(v, Pow2(8 * (br.totalBytes - 1))), 8 - s.prefixBits);
  }

  lemma {:induction false} EncodeTail(s: PV.Table, br: PV.Branch, v: nat, j: nat)
    requires 1 <= s.prefixBits <= 8 && PV.ValidBranch(s.prefixBits, br) && v <= br.Max() && 1 <= j < br.totalBytes
    ensures PV.Encode(s, br, v)[j] == Rem(Quot(v, Pow2(8 * (br.totalBytes - 1 - j))), 256)
  {
    var n := br.totalBytes;
    var low := ToBE(n - 1, Rem(v, Pow256(n - 1)));
    assert PV.Encode(s, br, v)[j] == low[j - 1];
    ToBEByte(n - 1, Rem(v, Pow256(n - 1)), j - 1);
    Pow256IsPow2(n - 1 - j);
    MiddleByte(v, j, n - 1 - j);
  }

  lemma {:induction false} MiddleByte(v: nat, j: nat, k: nat)
    requires j > 0
    ensures Rem(Quot(Rem(v, Pow256(j + k)), Pow256(k)), 256) == Rem(Quot(v, Pow256(k)), 256)
  {
    Pow256Add(j, k);
    RemRem(v, Pow256(j), Pow256(k));
    Pow256Add(j - 1, 1);
    RemRem(Quot(v, Pow256(k)), Pow256(j - 1), 256);
  }

  method SerializePrefix(s: PV.Table, val: nat, w: Writer) returns (r: Result<()>)
    requires PV.Valid(s) && w.Valid()
    modifies w, w.buf
    ensures w.Valid()
    ensures r.Ok? <==> PV.Serialize(s, val).Ok? && old(w.pos) + PV.WireSize(s, val) <= w.buf.Length
    ensures r.Ok? ==> Wrote(w, old(w.buf[..]), old(w.pos), PV.Serialize(s, val).value)
    ensures r.Err? ==> r.error == if PV.Serialize(s, val).Err? then Overflow else ShortBuffer
    ensures r.Err? ==> Kept(w, old(w.buf[..]), old(w.pos))
  {
    ghost var whole, start := w.buf[..], w.pos;
    var i := PV.Fit(s.branches, val);
    if i == |s.branches| {
      return Err(Overflow);
    }
    r := WriteBranch(s, s.branches[i], val, w);
  }

  /** The prefix and the top bits in the first byte, then a byte at a time. */
  method WriteBranch(s: PV.Table, br: PV.Branch, val: nat, w: Writer) returns (r: Result<()>)
    requires 1 <= s.prefixBits <= 8 && PV.ValidBranch(s.prefixBits, br) && val <= br.Max() && w.Valid()
    modifies w, w.buf
    ensures w.Valid()
    ensures r == if old(w.pos) + br.totalBytes <= w.buf.Length then Ok(()) else Err(ShortBuffer)
    ensures r.Ok? ==> Wrote(w, old(w.buf[..]), old(w.pos), PV.Encode(s, br, val))
    ensures r.Err? ==> Kept(w, old(w.buf[..]), old(w.pos))
  {
    ghost var whole, start := w.buf[..], w.pos;
    var n := br.totalBytes;
    ghost var e := PV.Encode(s, br, val);
    EncodeFirst(s, br, val);
    SpliceNothing(whole, start);
    r := WriteNext(w, Or(Join(br.prefix, PV.FirstBits(s), 0), Quot(val, Pow2(8 * (n - 1)))), whole, start, e, 0);
    if r.Err? {
      return;
    }
    for j := 1 to n
      invariant r == Ok(()) && Wrote(w, whole, start, e[..j])
      invariant Kept(w, whole, start)
    {
      EncodeTail(s, br, val, j);
      r := WriteNext(w, Rem(Quot(val, Pow2(8 * (n - 1 - j))), 256), whole, start, e, j);
      if r.Err? {
        return;
      }
    }
    assert e[..n] == e;
  }

  /** One write, as byte j of an encoding `e` under way at `start` of a buffer that held `whole`. */
  method WriteNext(w: Writer, x: byte, ghost whole: bytes, ghost start: nat, ghost e: bytes, ghost j: nat) returns (r: Result<()>)
    requires j < |e| && x == e[j] && start <= |whole| && Wrote(w, whole, start, e[..j])
    modifies w, w.buf
    ensures r == if start + j < |whole| then Ok(()) else Err(ShortBuffer)
    ensures Wrote(w, whole, start, if r.Ok? then e[..j + 1] else e[..j])
    ensures Kept(w, whole, start)
  {
    r := w.WriteByte(x);
    if r.Ok? {
      SpliceNext(whole, start, e, j);
    }
    SpliceKeeps(whole, start, if r.Ok? then e[..j + 1] else e[..j]);
  }

  // ----- continuation varints

  /** `x & (2^n - 2^k)` clears the low k bits. */
  lemma {:induction false} AndHigh(x: nat, n: nat, k: nat, high: nat)
    requires x < Pow2(n) && k <= n && high + Pow2(k) == Pow2(n)
    ensures And(x, high) + Rem(x, Pow2(k)) == x
  {
    if k == 0 {
      AndMask(x, n);
    } else {
      Pow2Mono(k - 1, n - 1);
      var half: nat := Pow2(n - 1) - Pow2(k - 1);
      AndHigh(x / 2, n - 1, k - 1, half);
      AndHighStep(x / 2, x % 2, half, Pow2(k - 1));
      Halves(x, high, half, Pow2(n - 1), Pow2(k - 1));
    }
  }

  lemma {:induction false} Halves(x: nat, high: nat, half: nat, p: nat, q: nat)
    requires high + 2 * q == 2 * p && half + q == p
    ensures 2 * (x / 2) + x % 2 == x && 2 * half == high
  {
  }

  lemma {:induction false} AndHighStep(h: nat, bit: nat, m: nat, p: nat)
    requires bit < 2 && p > 0 && And(h, m) + Rem(h, p) == h
    ensures And(2 * h + bit, 2 * m) + Rem(2 * h + bit, 2 * p) == 2 * h + bit
  {
    assert (2 * h + bit) / 2 == h && (2 * m) / 2 == m && (2 * m) % 2 == 0;
    RemDouble(h, bit, p);
  }

  /** `(byte & cont_mask) == 0` is the test for the last byte. */
  lemma {:induction false} LastByteTest(f: CV.Format, x: byte)
    requires 1 <= f.valueBits <= 7
    ensures And(x, CV.Mark(f)) == 0 <==> !CV.Continues(f, x)
    ensures And(x, CV.Base(f) - 1) == Rem(x, CV.Base(f))
  {
    CV.SmallPowers();
    assert Pow2(8) == 256;
    AndHigh(x, 8, if f.dialect.C? then 7 else f.valueBits, CV.Mark(f));
    AndMask(x, f.valueBits);
  }

  /** `byte |= cont_mask` on a byte that holds value bits only. */
  lemma {:induction false} MarkByte(f: CV.Format, d: nat)
    requires 1 <= f.valueBits <= 7 && d < CV.Base(f)
    ensures Or(d, CV.Mark(f)) == d + CV.Mark(f) < 256
  {
    CV.MarkMultiple(f);
    var k: nat :| CV.Mark(f) == Join(k, CV.Base(f), 0);
    OrDisjoint(k, d, f.valueBits);
    CV.JoinAdd(k, CV.Base(f), d);
  }

  lemma {:induction false} Pow2Is64()
    ensures Pow2(64) == CV.U64
  {
    assert Pow2(8) == 256;
    Pow2Add(8, 8);
    Pow2Add(16, 16);
    Pow2Add(32, 32);
  }

  /** `low | (high << shift)` in 64 bits. */
  lemma {:induction false} OrShifted(high: nat, low: nat, shift: nat)
    requires shift < 64 && low < Pow2(shift)
    ensures Or(low, Rem(Join(high, Pow2(shift), 0), CV.U64)) == Rem(Join(high, Pow2(shift), low), CV.U64)
    ensures Or(Rem(Join(high, Pow2(shift), 0), CV.U64), low) == Rem(Join(high, Pow2(shift), low), CV.U64)
    ensures low < CV.U64
  {
    var p, q := Pow2(shift), Pow2(64 - shift);
    Pow2Is64();
    Pow2Add(64 - shift, shift);
    Pow2Mono(shift, 64);
    SplitTwice(Join(high, p, low), q, p);
    SplitTwice(Join(high, p, 0), q, p);
    JoinSplit(high, p, low);
    JoinSplit(high, p, 0);
    OrDisjoint(Rem(high, q), low, shift);
  }

  /** The unbounded reading of the rest of the input above what has been read. */
  function LowFirst(f: CV.Format, b: bytes, left: nat, scale: nat, acc: nat): Result<(nat, bytes)>
    requires 1 <= f.valueBits <= 7
  {
    var (n, r) :- CV.DecodeLE(f, b, left);
    Ok((Join(n, scale, acc), r))
  }

  lemma {:induction false} LowFirstStep(f: CV.Format, b: bytes, left: nat, scale: nat, acc: nat)
    requires 1 <= f.valueBits <= 7 && left > 0 && b != []
    ensures var acc' := Join(Rem(b[0], CV.Base(f)), scale, acc);
            LowFirst(f, b, left, scale, acc) ==
            if CV.Continues(f, b[0]) then LowFirst(f, b[1..], left - 1, CV.Base(f) * scale, acc') else Ok((acc', b[1..]))
  {
    if CV.Continues(f, b[0]) && CV.DecodeLE(f, b[1..], left - 1).Ok? {
      JoinAssoc(CV.DecodeLE(f, b[1..], left - 1).value.0, CV.Base(f), Rem(b[0], CV.Base(f)), scale, acc);
    }
  }

  /** One turn of the loop: the accumulator takes the byte's group, and either that was the last byte
      or the rest of the input decides. */
  lemma {:induction false} LowFirstTurn(f: CV.Format, b: bytes, left: nat, shift: nat, acc: nat) returns (acc': nat)
    requires 1 <= f.valueBits <= 7 && left > 0 && b != [] && shift < 64 && acc < Pow2(shift)
    ensures acc' < Pow2(shift + f.valueBits)
    ensures Or(Rem(acc, CV.U64), Rem(Join(And(b[0], CV.Base(f) - 1), Pow2(shift), 0), CV.U64)) == Rem(acc', CV.U64)
    ensures LowFirst(f, b, left, Pow2(shift), acc) ==
            if And(b[0], CV.Mark(f)) == 0 then Ok((acc', b[1..]))
            else LowFirst(f, b[1..], left - 1, Pow2(shift + f.valueBits), acc')
  {
    LastByteTest(f, b[0]);
    var d := Rem(b[0], CV.Base(f));
    LowFirstStep(f, b, left, Pow2(shift), acc);
    OrShifted(d, acc, shift);
    SmallRem(acc, CV.U64);
    JoinLt(d, CV.Base(f), Pow2(shift), acc);
    Pow2Add(f.valueBits, shift);
    acc' := Join(d, Pow2(shift), acc);
  }

  function ShiftAt(valueBits: nat, i: nat): nat {
    if i == 0 then 0 else ShiftAt(valueBits, i - 1) + valueBits
  }

  lemma {:induction false} ShiftAtIs(valueBits: nat, i: nat)
    ensures ShiftAt(valueBits, i) == i * valueBits
  {
    if i != 0 {
      ShiftAtIs(valueBits, i - 1);
    }
  }

  /** No group is shifted out of 64 bits altogether. */
  ghost predicate ShiftsFit(f: CV.Format) {
    1 <= f.valueBits <= 7 && forall i :: 0 <= i < f.maxBytes ==> ShiftAt(f.valueBits, i) < 64
  }

  lemma {:induction false} ShiftBound(f: CV.Format)
    requires CV.Valid(f)
    ensures ShiftsFit(f)
  {
    forall i | 0 <= i < f.maxBytes ensures ShiftAt(f.valueBits, i) < 64 {
      ShiftAtIs(f.valueBits, i);
      MulMono(i, f.maxBytes - 1, f.valueBits);
    }
  }

  method ParseLowFirst(f: CV.Format, cur: Cursor) returns (r: Result<nat>)
    requires CV.Valid(f) && !f.bigEndian && cur.Valid()
    modifies cur
    ensures cur.Valid()
    ensures CV.Parse(f, old(cur.Rest())) == match r case Ok(v) => Ok((v, cur.Rest())) case Err(e) => Err(e)
  {
    ShiftBound(f);
    r := ReadGroups(f, cur);
  }

  /** The loop over the groups, low group first. */
  method ReadGroups(f: CV.Format, cur: Cursor) returns (r: Result<nat>)
    requires ShiftsFit(f) && cur.Valid()
    modifies cur
    ensures cur.Valid()
    ensures match CV.DecodeLE(f, old(cur.Rest()), f.maxBytes)
            case Ok((n, rest)) => r == Ok(Rem(n, CV.U64)) && cur.Rest() == rest
            case Err(e) => r == Err(e)
  {
    ghost var b := cur.Rest();
    var value: nat, shift := 0, 0;
    ghost var acc: nat := 0;
    FirstLowFirst(f, b, f.maxBytes);
    for i := 0 to f.maxBytes
      invariant cur.Valid() && shift == ShiftAt(f.valueBits, i)
      invariant acc < Pow2(shift) && value == Rem(acc, CV.U64)
      invariant CV.DecodeLE(f, b, f.maxBytes) == LowFirst(f, cur.Rest(), f.maxBytes - i, Pow2(shift), acc)
    {
      ghost var rest := cur.Rest();
      var x :- cur.ReadByte();
      acc := LowFirstTurn(f, rest, f.maxBytes - i, shift, acc);
      value := Or(value, Rem(Join(And(x, CV.Base(f) - 1), Pow2(shift), 0), CV.U64));
      if And(x, CV.Mark(f)) == 0 {
        return Ok(value);
      }
      shift := shift + f.valueBits;
    }
    r := Err(Overflow);
  }

  lemma {:induction false} FirstLowFirst(f: CV.Format, b: bytes, left: nat)
    requires 1 <= f.valueBits <= 7
    ensures LowFirst(f, b, left, Pow2(0), 0) == CV.DecodeLE(f, b, left)
  {
    if CV.DecodeLE(f, b, left).Ok? {
      JoinIs(CV.DecodeLE(f, b, left).value.0, 1, 0);
    }
  }

  lemma {:induction false} SmallRem(n: nat, d: nat)
    requires n < d
    ensures Rem(n, d) == n
  {
  }

  method ParseHighFirst(f: CV.Format, cur: Cursor) returns (r: Result<nat>)
    requires CV.Valid(f) && f.bigEndian && cur.Valid()
    modifies cur
    ensures cur.Valid()
    ensures CV.Parse(f, old(cur.Rest())) == match r case Ok(v) => Ok((v, cur.Rest())) case Err(e) => Err(e)
  {
    ghost var b := cur.Rest();
    var result := 0;
    for i := 0 to f.maxBytes
      invariant cur.Valid()
      invariant CV.DecodeBE(f, b, f.maxBytes, 0) == CV.DecodeBE(f, cur.Rest(), f.maxBytes - i, result)
    {
      var x :- cur.ReadByte();
      LastByteTest(f, x);
      OrShifted(result, Rem(x, CV.Base(f)), f.valueBits);
      result := Or(Rem(Join(result, CV.Base(f), 0), CV.U64), And(x, CV.Base(f) - 1));
      if And(x, CV.Mark(f)) == 0 {
        return Ok(result);
      }
    }
    r := Err(Overflow);
  }

  /** The byte written for a turn, and what is left to write. */
  lemma {:induction false} LowFirstByte(f: CV.Format, val: nat)
    requires 1 <= f.valueBits <= 7
    ensures var base, mark := CV.Base(f), CV.Mark(f);
            var q, e := Quot(val, base), CV.EncodeLE(base, mark, val);
            && e[0] == (if q != 0 then Or(And(val, base - 1), mark) else And(val, base - 1))
            && (q == 0 ==> |e| == 1)
            && (q != 0 ==> e[1..] == CV.EncodeLE(base, mark, q))
  {
    LastDigit(f, val);
    MarkByte(f, Rem(val, CV.Base(f)));
  }

  method SerializeLowFirst(f: CV.Format, v: nat, w: Writer) returns (r: Result<()>)
    requires CV.Valid(f) && !f.bigEndian && w.Valid()
    modifies w, w.buf
    ensures w.Valid()
    ensures r.Ok? <==> CV.Serialize(f, v).Ok? && old(w.pos) + CV.WireSize(f, v) <= w.buf.Length
    ensures r.Ok? ==> Wrote(w, old(w.buf[..]), old(w.pos), CV.Serialize(f, v).value)
    ensures r.Err? ==> r.error == if old(w.pos) + CV.WireSize(f, v) <= w.buf.Length then Overflow else ShortBuffer
    ensures r.Err? ==> Kept(w, old(w.buf[..]), old(w.pos))
  {
    ghost var whole, start := w.buf[..], w.pos;
    var base, mark := CV.Base(f), CV.Mark(f);
    ghost var e := CV.EncodeLE(base, mark, v);
    var val: nat := v;
    SpliceNothing(whole, start);
    for i := 0 to f.maxBytes
      invariant i < |e| && e[i..] == CV.EncodeLE(base, mark, val)
      invariant Wrote(w, whole, start, e[..i]) && Kept(w, whole, start)
    {
      LowFirstByte(f, val);
      assert e[i..][0] == e[i] && e[i..][1..] == e[i + 1..];
      var x := And(val, base - 1);
      val := Quot(val, base);
      if val != 0 {
        x := Or(x, mark);
      }
      r := WriteNext(w, x, whole, start, e, i);
      if r.Err? {
        return;
      }
      if val == 0 {
        assert e[..i + 1] == e;
        return Ok(());
      }
    }
    r := Err(Overflow);
  }

  lemma {:induction false} LastDigit(f: CV.Format, v: nat)
    requires 1 <= f.valueBits <= 7
    ensures And(v, CV.Base(f) - 1) == Rem(v, CV.Base(f))
    ensures Quot(v, CV.Base(f)) == 0 <==> v < CV.Base(f)
  {
    AndMask(v, f.valueBits);
  }

  /** Groups of a value, low group first. */
  function Digits(base: nat, v: nat): (ds: bytes)
    requires 2 <= base <= 256
    ensures |ds| == CV.Groups(base, v)
    ensures forall i :: 0 <= i < |ds| ==> ds[i] < base
  {
    if v < base then [v] else QuotLess(v, base); [Rem(v, base)] + Digits(base, Quot(v, base))
  }

  lemma {:induction false} MarkedDigit(base: nat, mark: nat, u: nat, i: nat)
    requires 2 <= base && base + mark <= 256 && u > 0 && i < |Digits(base, u)|
    ensures CV.MarkedBE(base, mark, u)[i] == Digits(base, u)[|Digits(base, u)| - 1 - i] + mark
    decreases u
  {
    QuotLess(u, base);
    if u >= base && i < |Digits(base, u)| - 1 {
      MarkedDigit(base, mark, Quot(u, base), i);
    }
  }

  lemma {:induction false} HighFirstDigit(base: nat, mark: nat, v: nat, i: nat)
    requires 2 <= base && base + mark <= 256 && i < |Digits(base, v)|
    ensures CV.EncodeBE(base, mark, v)[i] ==
            Digits(base, v)[|Digits(base, v)| - 1 - i] + if i < |Digits(base, v)| - 1 then mark else 0
  {
    if v >= base && i < |Digits(base, v)| - 1 {
      QuotLess(v, base);
      MarkedDigit(base, mark, Quot(v, base), i);
    }
  }

  lemma {:induction false} HighFirstByte(f: CV.Format, base: nat, mark: nat, ds: bytes, v: nat, i: nat)
    requires 1 <= f.valueBits <= 7 && base == CV.Base(f) && mark == CV.Mark(f) && ds == Digits(base, v) && i < |ds|
    ensures CV.EncodeBE(base, mark, v)[i] == if i < |ds| - 1 then Or(ds[|ds| - 1 - i], mark) else ds[|ds| - 1 - i]
  {
    MarkByte(f, ds[|ds| - 1 - i]);
    HighFirstDigit(base, mark, v, i);
  }

  /** The first loop: the groups in a scratch buffer, low group first. */
  method CollectGroups(f: CV.Format, v: nat) returns (r: Result<bytes>)
    requires CV.Valid(f)
    ensures r == if CV.Groups(CV.Base(f), v) <= f.maxBytes then Ok(Digits(CV.Base(f), v)) else Err(Overflow)
  {
    var base := CV.Base(f);
    var tmp: bytes := [];
    var val: nat := v;
    ghost var ds := Digits(base, v);
    while true
      invariant |tmp| < |ds| && ds == tmp + Digits(base, val)
      invariant |tmp| <= f.maxBytes
      decreases val
    {
      if |tmp| >= f.maxBytes {
        return Err(Overflow);
      }
      LastDigit(f, val);
      TakeDigit(base, tmp, val);
      if val > 0 {
        QuotLess(val, base);
      }
      tmp := tmp + [And(val, base - 1)];
      val := Quot(val, base);
      if val == 0 {
        return Ok(tmp);
      }
    }
  }

  lemma {:induction false} TakeDigit(base: nat, tmp: bytes, val: nat)
    requires 2 <= base <= 256
    ensures var next := tmp + [Rem(val, base)];
            tmp + Digits(base, val) == if Quot(val, base) == 0 then next else next + Digits(base, Quot(val, base))
  {
    if val > 0 {
      QuotLess(val, base);
    }
  }

  method SerializeHighFirst(f: CV.Format, v: nat, w: Writer) returns (r: Result<()>)
    requires CV.Valid(f) && f.bigEndian && w.Valid()
    modifies w, w.buf
    ensures w.Valid()
    ensures r.Ok? <==> CV.Serialize(f, v).Ok? && old(w.pos) + CV.WireSize(f, v) <= w.buf.Length
    ensures r.Ok? ==> Wrote(w, old(w.buf[..]), old(w.pos), CV.Serialize(f, v).value)
    ensures r.Err? ==> r.error == if CV.Serialize(f, v).Err? then Overflow else ShortBuffer
    ensures r.Err? ==> w.pos == old(w.pos) && w.buf[..] == old(w.buf[..])
  {
    ghost var whole, start := w.buf[..], w.pos;
    var base, mark := CV.Base(f), CV.Mark(f);
    var tmp :- CollectGroups(f, v);
    if |tmp| > w.buf.Length - w.pos {
      return Err(ShortBuffer);
    }
    SpliceNothing(whole, start);
    ghost var e := CV.EncodeBE(base, mark, v);
    for i := 0 to |tmp|
      invariant Wrote(w, whole, start, e[..i])
    {
      HighFirstByte(f, base, mark, tmp, v, i);
      var x := tmp[|tmp| - 1 - i];
      if i < |tmp| - 1 {
        x := Or(x, mark);
      }
      r := WriteNext(w, x, whole, start, e, i);
    }
    assert e[..|e|] == e;
    r := Ok(());
  }

  /** The emitted wire-size loop. */
  method WireSize(f: CV.Format, v: nat) returns (n: nat)
    requires CV.Valid(f)
    ensures n == CV.WireSize(f, v)
  {
    n := 1;
    var val: nat := v;
    while val >= CV.Base(f) && n < f.maxBytes
      invariant 1 <= n <= f.maxBytes && n + CV.Groups(CV.Base(f), val) == 1 + CV.Groups(CV.Base(f), v)
      decreases val
    {
      QuotLess(val, CV.Base(f));
      val := Quot(val, CV.Base(f));
      n := n + 1;
    }
  }
}
