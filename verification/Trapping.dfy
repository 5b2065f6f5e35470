/** On which inputs the fuzz harness traps. */
module Trapping {
  import opened Bytes
  import opened Outcome
  import opened Expr
  import opened Codec
  import opened RoundTrip
  import opened Scopes
  import opened Stability
  import opened Capsules
  import opened FuzzHarness

  /** No input makes the harness trap when the description makes sure that every scope is kept. */
  lemma {:induction false} StableNeverTraps(t: Type, b: bytes)
    requires Contained(t) && Stable(t)
    ensures !Traps(t, b)
  {
    if ParseType(t, b).Ok? {
      ParseIsStable(t, b);
    }
  }

  /** Another value that the re-parse comes upon by chance: its own scopes are kept, and it is written in the
      same bytes. */
  predicate Lookalike(t: Type, v: Val, e: bytes) {
    match ParseType(t, e)
    case Err(_) => false
    case Ok((w, r)) => r == [] && w != v && ScopesKept(t, w) && SerType(t, w) == Some(e)
  }

  /** The harness traps exactly on the inputs with a scope that is not kept, unless what is written does not
      fit its buffer or happens to be the encoding of another value. */
  lemma {:induction false} TrapsIff(t: Type, b: bytes)
    requires Contained(t) && ParseType(t, b).Ok?
    ensures var v := ParseType(t, b).value.0;
            && SerType(t, v).Some?
            && (Traps(t, b) <==>
                && |SerType(t, v).value| <= BUFFER
                && !ScopesKept(t, v) && !Lookalike(t, v, SerType(t, v).value))
  {
    StableIff(t, b);
    var e := SerType(t, ParseType(t, b).value.0).value;
    if ParseType(t, e).Ok? {
      StableIff(t, e);
      SameLengthKept(t, e);
    }
  }

  lemma {:induction false} SameLengthKept(t: Type, e: bytes)
    requires Contained(t) && ParseType(t, e).Ok?
    ensures var (w, r) := ParseType(t, e).value;
            r == [] && SerType(t, w) == Some(e) ==> ScopesKept(t, w)
  {
    ParseTypeSound(t, e);
    var (w, r) := ParseType(t, e).value;
    RewriteEnds(e, r, SerType(t, w), TypeGrade(t, w));
  }

  /** For a capsule whose header is kept: always when its payload is written back shorter than its scope, and
      never when it is as long and the payload's own scopes are kept. */
  lemma {:induction false} CapsuleTrapsIff(t: Type, b: bytes)
    requires t.Capsule? && Contained(t) && ParseType(t, b).Ok?
    requires ParseType(t, b).value.0.Encapsulated? ==> OpsKept(t.header, NO_NAMES, ParseType(t, b).value.0.header)
    ensures var v := ParseType(t, b).value.0;
            && v.Encapsulated? && v.alt < |t.variants| && SerType(t, v).Some?
            && var env, ops := ExtendAll(NO_NAMES, t.header, v.header), t.variants[v.alt].ops;
               if Size(t.within, env) != Some(Width(SerOps(ops, v.body)))
               then Traps(t, b) <==> |SerType(t, v).value| <= BUFFER
               else OpsKept(ops, PayloadEnv(env), v.body) ==> !Traps(t, b)
  {
    CapsuleStableIff(t, b);
  }
}
