/** The edit distance behind "did you mean" suggestions. */
module EditDistance {

  function Min(a: nat, b: nat): nat { if a <= b then a else b }

  function Cost(x: char, y: char): nat { if x == y then 0 else 1 }

  /** All but the last character. */
  function Init(s: string): (r: string)
    requires s != ""
    ensures |r| == |s| - 1
  {
    s[..|s| - 1]
  }

  function Last(s: string): char
    requires s != ""
  {
    s[|s| - 1]
  }

  /** The recurrence of the table. */
  function Dist(a: string, b: string): (d: nat)
    decreases |a| + |b|
  {
    if a == "" then |b|
    else if b == "" then |a|
    else
      Min(Min(Dist(Init(a), Init(b)) + Cost(Last(a), Last(b)), Dist(Init(a), b) + 1), Dist(a, Init(b)) + 1)
  }

  // ----- a metric

  lemma {:induction false} DistLengths(a: string, b: string)
    ensures |a| <= |b| + Dist(a, b) && |b| <= |a| + Dist(a, b) && Dist(a, b) <= |a| + |b|
    decreases |a| + |b|
  {
    if a != "" && b != "" {
      DistLengths(Init(a), Init(b));
      DistLengths(Init(a), b);
      DistLengths(a, Init(b));
    }
  }

  lemma {:induction false} DistSelf(a: string)
    ensures Dist(a, a) == 0
    decreases |a|
  {
    if a != "" {
      DistSelf(Init(a));
    }
  }

  lemma {:induction false} ZeroOnlyEqual(a: string, b: string)
    ensures Dist(a, b) == 0 <==> a == b
    decreases |a| + |b|
  {
    if a == b {
      DistSelf(a);
    } else if a != "" && b != "" {
      ZeroOnlyEqual(Init(a), Init(b));
      assert a == Init(a) + [Last(a)] && b == Init(b) + [Last(b)];
    }
  }

  lemma {:induction false} Symmetric(a: string, b: string)
    ensures Dist(a, b) == Dist(b, a)
    decreases |a| + |b|
  {
    if a != "" && b != "" {
      Symmetric(Init(a), Init(b));
      Symmetric(Init(a), b);
      Symmetric(a, Init(b));
    }
  }

  lemma {:induction false} Triangle(a: string, b: string, c: string)
    ensures Dist(a, c) <= Dist(a, b) + Dist(b, c)
    decreases |a| + |b| + |c|
  {
    if a == "" || b == "" || c == "" {
      DistLengths(a, b);
      DistLengths(b, c);
      DistLengths(a, c);
    } else {
      var a', b', c' := Init(a), Init(b), Init(c);
      Triangle(a', b, c);
      Triangle(a, b, c');
      Triangle(a, b', c);
      Triangle(a, b', c');
      Triangle(a', b', c);
      Triangle(a', b', c');
      TriangleCell(Around(a, b), Around(b, c), Around(a, c));
    }
  }

  /** A cell of the table with its three neighbours. */
  datatype Cells = Cells(x: char, y: char, diagonal: nat, above: nat, left: nat) {
    function Value(): nat {
      Min(Min(diagonal + Cost(x, y), above + 1), left + 1)
    }
  }

  function Around(a: string, b: string): (c: Cells)
    requires a != "" && b != ""
    ensures Dist(a, b) == c.Value()
  {
    Cells(Last(a), Last(b), Dist(Init(a), Init(b)), Dist(Init(a), b), Dist(a, Init(b)))
  }

  lemma {:induction false} TriangleCell(ab: Cells, bc: Cells, ac: Cells)
    requires ab.x == ac.x && ab.y == bc.x && bc.y == ac.y
    requires ac.above <= ab.above + bc.Value() && ac.left <= ab.Value() + bc.left && ac.Value() <= ab.left + bc.above
    requires ac.left <= ab.left + bc.diagonal && ac.above <= ab.diagonal + bc.above && ac.diagonal <= ab.diagonal + bc.diagonal
    ensures ac.Value() <= ab.Value() + bc.Value()
  {
  }

  // ----- the least number of edits

  /** One character inserted at i. */
  predicate InsertsAt(a: string, b: string, i: nat) {
    |b| == |a| + 1 && i <= |a| && b == a[..i] + [b[i]] + a[i..]
  }

  predicate ChangesAt(a: string, b: string, i: nat) {
    |a| == |b| && i < |a| && b == a[..i] + [b[i]] + a[i + 1..]
  }

  ghost predicate OneEdit(a: string, b: string) {
    exists i: nat :: InsertsAt(a, b, i) || InsertsAt(b, a, i) || ChangesAt(a, b, i)
  }

  ghost predicate Edits(path: seq<string>, a: string, b: string) {
    && path != [] && path[0] == a && path[|path| - 1] == b
    && forall k :: 0 <= k < |path| - 1 ==> OneEdit(path[k], path[k + 1])
  }

  lemma {:induction false} SameEnd(a: string, b: string, s: string)
    ensures Dist(a + s, b + s) <= Dist(a, b)
    decreases |s|
  {
    if s == "" {
      assert a + s == a && b + s == b;
    } else {
      SameEnd(a, b, Init(s));
      assert Init(a + s) == a + Init(s) && Init(b + s) == b + Init(s);
    }
  }

  lemma {:induction false} OneInsert(a: string, b: string, i: nat)
    requires InsertsAt(a, b, i)
    ensures Dist(a, b) <= 1
  {
    var p := a[..i];
    DistSelf(p);
    assert Init(p + [b[i]]) == p;
    assert Dist(p, p + [b[i]]) <= 1;
    SameEnd(p, p + [b[i]], a[i..]);
    assert a == p + a[i..];
  }

  lemma {:induction false} OneEditCosts(a: string, b: string)
    requires OneEdit(a, b)
    ensures Dist(a, b) <= 1
  {
    var i: nat :| InsertsAt(a, b, i) || InsertsAt(b, a, i) || ChangesAt(a, b, i);
    if InsertsAt(a, b, i) {
      OneInsert(a, b, i);
    } else if InsertsAt(b, a, i) {
      OneInsert(b, a, i);
      Symmetric(a, b);
    } else {
      OneChange(a, b, i);
    }
  }

  lemma {:induction false} OneChange(a: string, b: string, i: nat)
    requires ChangesAt(a, b, i)
    ensures Dist(a, b) <= 1
  {
    var p, x, y, s := a[..i], a[i], b[i], a[i + 1..];
    DistSelf(p);
    LastChanged(p, x, y);
    SameEnd(p + [x], p + [y], s);
    assert a == p + [x] + s && b == p + [y] + s;
  }

  lemma {:induction false} LastChanged(p: string, x: char, y: char)
    requires Dist(p, p) == 0
    ensures Dist(p + [x], p + [y]) <= 1
  {
    assert Init(p + [x]) == p && Init(p + [y]) == p;
  }

  /** No way of editing one into the other is shorter. */
  lemma {:induction false} NoFewerEdits(path: seq<string>, a: string, b: string)
    requires Edits(path, a, b)
    ensures Dist(a, b) <= |path| - 1
    decreases |path|
  {
    if |path| == 1 {
      DistSelf(a);
    } else {
      var shorter := path[..|path| - 1];
      var m := path[|path| - 2];
      forall k | 0 <= k < |shorter| - 1 ensures OneEdit(shorter[k], shorter[k + 1]) {
        assert OneEdit(path[k], path[k + 1]);
      }
      NoFewerEdits(shorter, a, m);
      OneEditCosts(m, b);
      Triangle(a, m, b);
    }
  }

  lemma {:induction false} EditsThen(path: seq<string>, a: string, b: string, c: string)
    requires Edits(path, a, b) && OneEdit(b, c)
    ensures Edits(path + [c], a, c)
  {
    var longer := path + [c];
    forall k | 0 <= k < |longer| - 1 ensures OneEdit(longer[k], longer[k + 1]) {
      if k < |path| - 1 {
        assert longer[k] == path[k] && longer[k + 1] == path[k + 1];
      }
    }
  }

  lemma {:induction false} ThenEdits(a: string, path: seq<string>, b: string, c: string)
    requires OneEdit(a, b) && Edits(path, b, c)
    ensures Edits([a] + path, a, c)
  {
    var longer := [a] + path;
    forall k | 0 <= k < |longer| - 1 ensures OneEdit(longer[k], longer[k + 1]) {
      if k > 0 {
        assert longer[k] == path[k - 1] && longer[k + 1] == path[k];
      }
    }
  }

  function Extended(path: seq<string>, x: char): (r: seq<string>)
    ensures |r| == |path| && forall k :: 0 <= k < |path| ==> r[k] == path[k] + [x]
  {
    seq(|path|, k requires 0 <= k < |path| => path[k] + [x])
  }

  lemma {:induction false} OneEditExtended(a: string, b: string, x: char)
    requires OneEdit(a, b)
    ensures OneEdit(a + [x], b + [x])
  {
    var i: nat :| InsertsAt(a, b, i) || InsertsAt(b, a, i) || ChangesAt(a, b, i);
    if InsertsAt(a, b, i) {
      InsertExtended(a, b, i, x);
    } else if InsertsAt(b, a, i) {
      InsertExtended(b, a, i, x);
    } else {
      ChangeExtended(a, b, i, x);
    }
  }

  lemma {:induction false} InsertExtended(a: string, b: string, i: nat, x: char)
    requires InsertsAt(a, b, i)
    ensures InsertsAt(a + [x], b + [x], i)
  {
  }

  lemma {:induction false} ChangeExtended(a: string, b: string, i: nat, x: char)
    requires ChangesAt(a, b, i)
    ensures ChangesAt(a + [x], b + [x], i)
  {
  }

  lemma {:induction false} EditsExtended(path: seq<string>, a: string, b: string, x: char)
    requires Edits(path, a, b)
    ensures Edits(Extended(path, x), a + [x], b + [x])
  {
    var longer := Extended(path, x);
    forall k | 0 <= k < |longer| - 1 ensures OneEdit(longer[k], longer[k + 1]) {
      OneEditExtended(path[k], path[k + 1], x);
    }
  }

  /** As many edits are enough. */
  lemma {:induction false} EnoughEdits(a: string, b: string) returns (path: seq<string>)
    ensures Edits(path, a, b) && |path| - 1 == Dist(a, b)
    decreases |a| + |b|
  {
    if a == "" && b == "" {
      path := [a];
    } else if b == "" || (a != "" && Dist(a, b) == Dist(Init(a), b) + 1) {
      var rest := EnoughEdits(Init(a), b);
      LastIsEdit(a);
      ThenEdits(a, rest, Init(a), b);
      path := [a] + rest;
    } else if a == "" || Dist(a, b) == Dist(a, Init(b)) + 1 {
      var rest := EnoughEdits(a, Init(b));
      LastIsEdit(b);
      EditsThen(rest, a, Init(b), b);
      path := rest + [b];
    } else {
      var rest := EnoughEdits(Init(a), Init(b));
      InitLast(a);
      InitLast(b);
      path := EditsChanged(rest, Init(a), Init(b), Last(a), Last(b));
    }
  }

  lemma {:induction false} LastIsEdit(s: string)
    requires s != ""
    ensures OneEdit(s, Init(s)) && OneEdit(Init(s), s)
  {
    assert InsertsAt(Init(s), s, |s| - 1);
  }

  lemma {:induction false} InitLast(s: string)
    requires s != ""
    ensures Init(s) + [Last(s)] == s
  {
  }

  lemma {:induction false} EditsChanged(rest: seq<string>, a: string, b: string, x: char, y: char) returns (path: seq<string>)
    requires Edits(rest, a, b)
    ensures Edits(path, a + [x], b + [y]) && |path| == |rest| + Cost(x, y)
  {
    EditsExtended(rest, a, b, x);
    path := Extended(rest, x);
    if x != y {
      assert ChangesAt(b + [x], b + [y], |b|);
      EditsThen(path, a + [x], b + [x], b + [y]);
      path := path + [b + [y]];
    }
  }

  // ----- the two-row loop

  /** Bytes of a string in UTF-8, which is what the lengths in the code count. */
  function ByteLength(s: string): (n: nat)
    ensures n >= |s|
    ensures n == 0 <==> s == ""
  {
    if s == "" then 0 else ByteLength(Init(s)) + CharBytes(Last(s))
  }

  function CharBytes(c: char): (n: nat)
    ensures n >= 1
  {
    if c < 0x80 as char then 1 else if c < 0x800 as char then 2 else if c < 0x1_0000 as char then 3 else 4
  }

  /** One byte has room for 7 bits of a character, two for 11, three for 16 and four for 21; the shortest form counts. */
  lemma {:induction false} CharBytesIs(c: char, n: nat)
    requires 1 <= n <= 4
    ensures CharBytes(c) <= n <==> c as int < (if n == 1 then 0x80 else if n == 2 then 0x800 else if n == 3 then 0x1_0000 else 0x20_0000)
  {
  }

  /** What the function returns: the distance, unless the second string has characters of several bytes,
      whose column the loop never reaches, or one string is empty, when it counts the other's bytes. */
  function Returned(a: string, b: string): nat {
    if a == "" then ByteLength(b)
    else if b == "" then ByteLength(a)
    else if ByteLength(b) == |b| then Dist(a, b)
    else if |a| % 2 == 1 then 0
    else ByteLength(b)
  }

  /** The first n + 1 entries are the distances from p to the prefixes of b. */
  predicate Row(row: seq<nat>, p: string, b: string, n: nat)
    requires n <= |b| && n < |row|
  {
    forall k :: 0 <= k <= n ==> row[k] == Dist(p, b[..k])
  }

  method FillRow(a: string, b: string, i: nat, prev: array<nat>, curr: array<nat>)
    requires i < |a| && prev != curr && prev.Length == curr.Length > |b| && Row(prev[..], a[..i], b, |b|)
    modifies curr
    ensures Row(curr[..], a[..i + 1], b, |b|)
    ensures forall k :: |b| < k < curr.Length ==> curr[k] == old(curr[k])
  {
    curr[0] := i + 1;
    assert b[..0] == "";
    for j := 0 to |b|
      invariant Row(curr[..], a[..i + 1], b, j) && Row(prev[..], a[..i], b, |b|)
      invariant forall k :: |b| < k < curr.Length ==> curr[k] == old(curr[k])
    {
      NextEntry(a, b, i, j, prev[..], curr[..]);
      var cost := Cost(a[i], b[j]);
      ghost var before := curr[..];
      curr[j + 1] := Min(Min(prev[j] + cost, prev[j + 1] + 1), curr[j] + 1);
      assert curr[..] == before[j + 1 := curr[j + 1]];
    }
  }

  lemma {:induction false} NextEntry(a: string, b: string, i: nat, j: nat, prev: seq<nat>, curr: seq<nat>)
    requires i < |a| && j < |b| < |prev| == |curr| && Row(prev, a[..i], b, |b|) && Row(curr, a[..i + 1], b, j)
    ensures Row(curr[j + 1 := Min(Min(prev[j] + Cost(a[i], b[j]), prev[j + 1] + 1), curr[j] + 1)], a[..i + 1], b, j + 1)
  {
    Cell(a, b, i, j);
  }

  method Levenshtein(a: string, b: string) returns (d: nat)
    ensures d == Returned(a, b)
  {
    var aLen, bLen := ByteLength(a), ByteLength(b);
    if aLen == 0 {
      return bLen;
    }
    if bLen == 0 {
      return aLen;
    }
    var prev := new nat[bLen + 1](i => i);
    var curr := new nat[bLen + 1](_ => 0);
    for i := 0 to |a|
      invariant prev != curr && prev.Length == curr.Length == bLen + 1 && fresh(prev) && fresh(curr)
      invariant Row(prev[..], a[..i], b, |b|)
      invariant |b| < bLen ==> prev[bLen] == (if i % 2 == 0 then bLen else 0) && curr[bLen] == if i % 2 == 0 then 0 else bLen
    {
      FillRow(a, b, i, prev, curr);
      prev, curr := curr, prev;
    }
    assert a[..|a|] == a && b[..|b|] == b;
    d := prev[bLen];
    assert prev[..][|b|] == prev[|b|];
  }

  lemma {:induction false} Cell(a: string, b: string, i: nat, j: nat)
    requires i < |a| && j < |b|
    ensures Dist(a[..i + 1], b[..j + 1]) ==
            Min(Min(Dist(a[..i], b[..j]) + Cost(a[i], b[j]), Dist(a[..i], b[..j + 1]) + 1), Dist(a[..i + 1], b[..j]) + 1)
  {
    assert Init(a[..i + 1]) == a[..i] && Init(b[..j + 1]) == b[..j];
  }

  predicate Ascii(s: string) {
    forall i :: 0 <= i < |s| ==> s[i] < 0x80 as char
  }

  lemma {:induction false} AsciiBytes(s: string)
    ensures ByteLength(s) == |s| <==> Ascii(s)
    decreases |s|
  {
    if s != "" {
      AsciiBytes(Init(s));
      assert s == Init(s) + [Last(s)];
    }
  }

  /** When the result is the distance for sure: the second string is ASCII and, if it is empty, so is the
      first. */
  lemma {:induction false} AsciiExact(a: string, b: string)
    requires Ascii(b) && (b == "" ==> Ascii(a))
    ensures Returned(a, b) == Dist(a, b)
  {
    AsciiBytes(a);
    AsciiBytes(b);
  }

  lemma {:induction false} DistLonger(a: string, b: string)
    ensures Dist(a, b) <= if |a| >= |b| then |a| else |b|
    decreases |a| + |b|
  {
    if a != "" && b != "" {
      DistLonger(Init(a), Init(b));
    }
  }

  /** When the result is the distance: in all cases but these it is not. For a second string with longer
      characters it is right for equal strings of odd length; and for a first string of even length by chance,
      when the number of bytes of the second happens to be the distance, which takes a first string with at
      least as many characters. */
  lemma {:induction false} ExactIff(a: string, b: string)
    ensures Returned(a, b) == Dist(a, b) <==>
            if a == "" then Ascii(b)
            else if b == "" then Ascii(a)
            else Ascii(b) || (if |a| % 2 == 1 then a == b else Dist(a, b) == ByteLength(b))
    ensures a != "" && b != "" && !Ascii(b) && |a| % 2 == 0 && |a| < ByteLength(b) ==> Returned(a, b) > Dist(a, b)
  {
    AsciiBytes(a);
    AsciiBytes(b);
    ZeroOnlyEqual(a, b);
    DistLonger(a, b);
  }

  /** One letter against an accented one: the distance is 1 and the result 0. Against two letters the result is
      right by chance. */
  lemma {:induction false} AccentByHand()
    ensures Returned("a", "\U{e9}") == 0 && Dist("a", "\U{e9}") == 1
    ensures Returned("ab", "\U{e9}") == 2 == Dist("ab", "\U{e9}")
  {
    var e := "\U{e9}";
    assert Init("a") == "" && Init(e) == "" && Init("ab") == "a";
    assert ByteLength(e) == ByteLength("") + CharBytes(Last(e));
    assert Dist("", e) == 1 && Dist("a", "") == 1 && Dist("ab", "") == 2;
  }
}
