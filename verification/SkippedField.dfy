/** The two readings of a buffer without its checksum field. */
module SkippedField {
  import opened Bytes

  function Zeros(n: nat): (b: bytes)
    ensures |b| == n
  {
    if n == 0 then [] else [0] + Zeros(n - 1)
  }

  lemma {:induction false} ZerosAt(n: nat, i: nat)
    requires i < n
    ensures Zeros(n)[i] == 0
  {
    if i > 0 {
      ZerosAt(n - 1, i - 1);
    }
  }

  /** The field's bytes read as zero. */
  function Zeroed(data: bytes, at: nat, n: nat): (b: bytes)
    requires at + n <= |data|
    ensures |b| == |data|
  {
    data[..at] + Zeros(n) + data[at + n..]
  }

  lemma {:induction false} ZeroedAt(data: bytes, at: nat, n: nat, i: nat)
    requires at + n <= |data| && i < |data|
    ensures Zeroed(data, at, n)[i] == if at <= i < at + n then 0 else data[i]
  {
    if at <= i < at + n {
      ZerosAt(n, i - at);
    }
  }

  /** The field's bytes left out. */
  function Dropped(data: bytes, at: nat, n: nat): (b: bytes)
    requires at + n <= |data|
    ensures |b| == |data| - n
  {
    data[..at] + data[at + n..]
  }

  /** Neither reading depends on what the field holds. */
  lemma {:induction false} FieldIgnored(data: bytes, at: nat, field: bytes)
    requires at + |field| <= |data|
    ensures var patched := data[..at] + field + data[at + |field|..];
            && Zeroed(patched, at, |field|) == Zeroed(data, at, |field|)
            && Dropped(patched, at, |field|) == Dropped(data, at, |field|)
  {
  }
}
