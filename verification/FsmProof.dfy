/** The encoder's view of a register update and of a partition, and the proof
    that two successors stay in one class. */
module FsmProof {
  import opened Lists
  import opened Cnf
  import opened LogicMiter
  import opened LogicEquivalence
  import opened WordEncoder
  import opened FsmPartition

  /** Selects between two words bit by bit. */
  method SelectAll(enc: Encoder, cond: Atom, ts: seq<Atom>, fs: seq<Atom>, ghost c: Expr, ghost t: seq<Expr>,
                   ghost f: seq<Expr>)
    returns (out: seq<Atom>)
    requires enc.Valid() && Denotes(enc.miter.defs, cond, c, enc.state, enc.bits)
    requires AllDenote(enc.miter.defs, ts, t, enc.state, enc.bits)
    requires AllDenote(enc.miter.defs, fs, f, enc.state, enc.bits)
    requires |t| == |f|
    modifies enc, enc.miter
    ensures enc.Valid() && Stays(old(enc.miter.defs), old(enc.state), old(enc.bits), old(enc.miter.queries), enc)
    ensures AllDenote(enc.miter.defs, out, SelectE(c, t, f), enc.state, enc.bits)
  {
    hide Denotes, SignalsMatch, Formula, Defining, InputsMatch, Eval;
    out := [];
    for i := 0 to |ts|
      invariant enc.Valid() && Stays(old(enc.miter.defs), old(enc.state), old(enc.bits), old(enc.miter.queries), enc)
      invariant Denotes(enc.miter.defs, cond, c, enc.state, enc.bits)
      invariant AllDenote(enc.miter.defs, ts, t, enc.state, enc.bits)
      invariant AllDenote(enc.miter.defs, fs, f, enc.state, enc.bits)
      invariant AllDenote(enc.miter.defs, out, SelectE(c, t, f)[..i], enc.state, enc.bits)
    {
      ghost var before := enc.miter.defs;
      var bit := enc.Select(cond, ts[i], fs[i], c, t[i], f[i]);
      DenotesKept(before, enc.miter.defs, cond, c, enc.state, enc.bits);
      AllDenoteKept(before, enc.miter.defs, ts, t, enc.state, enc.bits);
      AllDenoteKept(before, enc.miter.defs, fs, f, enc.state, enc.bits);
      AllDenoteKept(before, enc.miter.defs, out, SelectE(c, t, f)[..i], enc.state, enc.bits);
      OneMoreDenotes(enc.miter.defs, out, SelectE(c, t, f)[..i], bit, SelectE(c, t, f)[i], enc.state, enc.bits);
      out := out + [bit];
      assert SelectE(c, t, f)[..i + 1] == SelectE(c, t, f)[..i] + [SelectE(c, t, f)[i]];
    }
    assert SelectE(c, t, f)[..|ts|] == SelectE(c, t, f);
  }

  /** Definitions only grow and the binding of the state stays. */
  ghost predicate Stays(defs: seq<Def>, state: seq<nat>, bits: seq<bool>, queries: nat, enc: Encoder)
    reads enc, enc.miter
  {
    defs <= enc.miter.defs && enc.state == state && enc.bits == bits && enc.miter.queries == queries
  }

  /** A one-bit control in its active sense. */
  method EncodeControl(enc: Encoder, control: Control) returns (result: Result<Atom>)
    requires enc.Valid()
    modifies enc, enc.miter
    ensures enc.Valid() && Stays(old(enc.miter.defs), old(enc.state), old(enc.bits), old(enc.miter.queries), enc)
    ensures if GoodControl(enc.values, control)
            then result.Success? && Denotes(enc.miter.defs, result.value, ControlE(enc.values, control), enc.state,
                enc.bits)
            else result == Error(Invalid)
  {
    hide Denotes, SignalsMatch, Formula, Defining, InputsMatch, Eval;
    var bits := enc.Value(control.value);
    if bits.Error? { return Error(Invalid); }
    if |bits.value| != 1 { return Error(Invalid); }
    var bit := bits.value[0];
    NotDenotes(enc.miter.defs, bit, enc.values[control.value][0], enc.state, enc.bits);
    result := Success(if control.activeHigh then bit else bit.Not());
  }

  /** Encodes one complete register update. */
  method RegisterNext(enc: Encoder, register: Register, signal: seq<nat>) returns (result: Result<seq<Atom>>)
    requires enc.Valid()
    modifies enc, enc.miter
    ensures enc.Valid() && Stays(old(enc.miter.defs), old(enc.state), old(enc.bits), old(enc.miter.queries), enc)
    ensures if GoodRegister(enc.values, register, |signal|)
            then result.Success? && AllDenote(enc.miter.defs, result.value,
                NextE(enc.values, register, register.resets, signal), enc.state, enc.bits)
            else result == Error(Invalid)
  {
    hide Denotes, AllDenote, SignalsMatch, Shares, Formula, Defining, InputsMatch, Eval, Distinct;
    hide NextE, SelectE, ControlE;
    var updated := RegisterUpdate(enc, register, signal);
    if updated.Error? { return Error(Invalid); }
    NoResets(enc.values, Register(register.d, register.enable, []), signal);
    var next := updated.value;
    var k := |register.resets|;
    assert register.resets[k..] == [];
    while k > 0
      invariant 0 <= k <= |register.resets|
      invariant enc.Valid() && Stays(old(enc.miter.defs), old(enc.state), old(enc.bits), old(enc.miter.queries), enc)
      invariant forall i :: k <= i < |register.resets| ==> GoodReset(enc.values, register.resets[i], |signal|)
      invariant GoodUpdate(enc.values, register, |signal|)
      invariant var plain := Register(register.d, register.enable, []);
                AllDenote(enc.miter.defs, next, NextE(enc.values, plain, register.resets[k..], signal), enc.state,
                    enc.bits)
    {
      k := k - 1;
      var reset := register.resets[k];
      ghost var plain := Register(register.d, register.enable, []);
      ghost var tail := NextE(enc.values, plain, register.resets[k + 1..], signal);
      var selected := EncodeReset(enc, reset, next, tail);
      if selected.Error? { return Error(Invalid); }
      next := selected.value;
      NextReset(enc.values, plain, register.resets, k, signal);
    }
    assert register.resets[0..] == register.resets;
    PlainNext(enc.values, register, register.resets, signal);
    result := Success(next);
  }

  lemma NoResets(values: Values, register: Register, signal: seq<nat>)
    requires GoodRegister(values, register, |signal|)
    ensures NextE(values, register, [], signal) == UpdateE(values, register, signal)
  {
  }

  lemma NextReset(values: Values, register: Register, resets: seq<Reset>, k: nat, signal: seq<nat>)
    requires GoodRegister(values, register, |signal|) && k < |resets|
    requires forall i :: k <= i < |resets| ==> GoodReset(values, resets[i], |signal|)
    ensures NextE(values, register, resets[k..], signal)
         == SelectE(ControlE(values, resets[k].control), values[resets[k].resetValue],
             NextE(values, register, resets[k + 1..], signal))
  {
    assert resets[k..][0] == resets[k] && resets[k..][1..] == resets[k + 1..];
  }

  /** One reset folded in front of the lower priorities. */
  method EncodeReset(enc: Encoder, reset: Reset, next: seq<Atom>, ghost tail: seq<Expr>)
      returns (result: Result<seq<Atom>>)
    requires enc.Valid() && AllDenote(enc.miter.defs, next, tail, enc.state, enc.bits)
    modifies enc, enc.miter
    ensures enc.Valid() && Stays(old(enc.miter.defs), old(enc.state), old(enc.bits), old(enc.miter.queries), enc)
    ensures if GoodReset(enc.values, reset, |tail|)
            then result.Success? && AllDenote(enc.miter.defs, result.value,
                   SelectE(ControlE(enc.values, reset.control), enc.values[reset.resetValue], tail), enc.state,
                       enc.bits)
            else result == Error(Invalid)
  {
    hide Denotes, AllDenote, SignalsMatch, Shares, Formula, Defining, InputsMatch, Eval, Distinct;
    ghost var d0 := enc.miter.defs;
    var active := EncodeControl(enc, reset.control);
    if active.Error? { return Error(Invalid); }
    ghost var d1 := enc.miter.defs;
    var value := enc.Value(reset.resetValue);
    if value.Error? { return Error(Invalid); }
    DenoteLength(enc.miter.defs, value.value, enc.values[reset.resetValue], enc.state, enc.bits);
    DenoteLength(d0, next, tail, enc.state, enc.bits);
    if |value.value| != |next| { return Error(Invalid); }
    AllDenoteKept(d0, enc.miter.defs, next, tail, enc.state, enc.bits);
    DenotesKept(d1, enc.miter.defs, active.value, ControlE(enc.values, reset.control), enc.state, enc.bits);
    var out := SelectAll(enc, active.value, value.value, next, ControlE(enc.values, reset.control),
        enc.values[reset.resetValue], tail);
    result := Success(out);
  }

  predicate GoodUpdate(values: Values, register: Register, width: nat) {
    && register.d < |values| && |values[register.d]| == width
    && (register.enable.Some? ==> GoodControl(values, register.enable.value))
  }

  lemma {:induction false} PlainNext(values: Values, register: Register, resets: seq<Reset>, state: seq<nat>)
    requires GoodRegister(values, register, |state|)
    requires forall i :: 0 <= i < |resets| ==> GoodReset(values, resets[i], |state|)
    ensures NextE(values, register, resets, state)
        == NextE(values, Register(register.d, register.enable, []), resets, state)
    decreases |resets|
  {
    if resets != [] { PlainNext(values, register, resets[1..], state); }
  }

  lemma DenoteLength(defs: seq<Def>, atoms: seq<Atom>, es: seq<Expr>, state: seq<nat>, bits: seq<bool>)
    requires |bits| == |state| && AllDenote(defs, atoms, es, state, bits)
    ensures |atoms| == |es|
  {
  }

  /** Data, or the held state while the enable is inactive. */
  method RegisterUpdate(enc: Encoder, register: Register, signal: seq<nat>) returns (result: Result<seq<Atom>>)
    requires enc.Valid()
    modifies enc, enc.miter
    ensures enc.Valid() && Stays(old(enc.miter.defs), old(enc.state), old(enc.bits), old(enc.miter.queries), enc)
    ensures if GoodUpdate(enc.values, register, |signal|)
            then result.Success? && AllDenote(enc.miter.defs, result.value,
                UpdateE(enc.values, Register(register.d, register.enable, []), signal), enc.state, enc.bits)
            else result == Error(Invalid)
  {
    hide Denotes, AllDenote, SignalsMatch, Formula, Defining, InputsMatch, Eval;
    var held := EncodeHeld(enc, signal);
    ghost var d0 := enc.miter.defs;
    DenoteLength(d0, held, HeldE(signal), enc.state, enc.bits);
    var next := enc.Value(register.d);
    if next.Error? { return Error(Invalid); }
    ghost var d1 := enc.miter.defs;
    DenoteLength(d1, next.value, enc.values[register.d], enc.state, enc.bits);
    if |held| != |next.value| { return Error(Invalid); }
    match register.enable {
      case None => return next;
      case Some(enable) =>
        var active := EncodeControl(enc, enable);
        if active.Error? { return Error(Invalid); }
        AllDenoteKept(d0, enc.miter.defs, held, HeldE(signal), enc.state, enc.bits);
        AllDenoteKept(d1, enc.miter.defs, next.value, enc.values[register.d], enc.state, enc.bits);
        var out := SelectAll(enc, active.value, next.value, held, ControlE(enc.values, enable), enc.values[register.d],
            HeldE(signal));
        return Success(out);
    }
  }

  method EncodeHeld(enc: Encoder, signal: seq<nat>) returns (held: seq<Atom>)
    requires enc.Valid()
    modifies enc, enc.miter
    ensures enc.Valid() && Stays(old(enc.miter.defs), old(enc.state), old(enc.bits), old(enc.miter.queries), enc)
    ensures AllDenote(enc.miter.defs, held, HeldE(signal), enc.state, enc.bits)
  {
    hide Denotes, AllDenote, SignalsMatch, Formula, Defining, InputsMatch, Eval;
    held := [];
    NothingDenotes(enc.miter.defs, enc.state, enc.bits);
    for i := 0 to |signal|
      invariant enc.Valid() && Stays(old(enc.miter.defs), old(enc.state), old(enc.bits), old(enc.miter.queries), enc)
      invariant AllDenote(enc.miter.defs, held, HeldE(signal)[..i], enc.state, enc.bits)
    {
      ghost var before := enc.miter.defs;
      var bit := enc.Signal(signal[i]);
      AllDenoteKept(before, enc.miter.defs, held, HeldE(signal)[..i], enc.state, enc.bits);
      OneMoreDenotes(enc.miter.defs, held, HeldE(signal)[..i], bit, HeldE(signal)[i], enc.state, enc.bits);
      held := held + [bit];
      assert HeldE(signal)[..i + 1] == HeldE(signal)[..i] + [HeldE(signal)[i]];
    }
    assert HeldE(signal)[..|signal|] == HeldE(signal);
  }

  // ----- partitions -----

  function MaxClass(classes: seq<nat>): (m: nat)
    requires classes != []
    ensures m in classes && forall i :: 0 <= i < |classes| ==> classes[i] <= m
  {
    if |classes| == 1 then classes[0]
    else
      var n := |classes| - 1;
      var m := MaxClass(classes[..n]);
      assert forall i :: 0 <= i < n ==> classes[..n][i] == classes[i];
      if classes[n] > m then classes[n] else m
  }

  /** Every number up to the largest class is a class. */
  predicate Dense(classes: seq<nat>)
    requires classes != []
  {
    forall c :: 0 <= c <= MaxClass(classes) ==> c in classes
  }

  /** Counting the distinct classes decides it. */
  lemma DenseIsCounted(classes: seq<nat>)
    requires classes != []
    ensures Dense(classes) <==> |Members(classes)| == MaxClass(classes) + 1
  {
    hide MaxClass;
    var ids, n := Members(classes), MaxClass(classes) + 1;
    var all := Members(Indices(n));
    assert Distinct(Indices(n));
    SetOfDistinct(Indices(n));
    forall c: nat ensures c in all <==> c < n {
      if c < n { assert Indices(n)[c] == c; }
    }
    assert ids <= all;
    if |ids| == n {
      SameSize(ids, all);
      forall c: nat | c < n ensures c in classes { assert c in all; }
    }
    if Dense(classes) {
      forall c | c in all ensures c in ids {}
      assert ids == all;
    }
  }

  lemma SameSize(s: set<nat>, t: set<nat>)
    requires s <= t && |s| == |t|
    ensures s == t
  {
    assert t == s + (t - s);
  }

  method AllDistinct<T(==)>(s: seq<T>) returns (ok: bool)
    ensures ok <==> Distinct(s)
  {
    for i := 0 to |s|
      invariant Distinct(s[..i])
    {
      if s[i] in s[..i] { return false; }
      assert s[..i + 1] == s[..i] + [s[i]];
    }
    assert s[..|s|] == s;
    ok := true;
  }

  predicate GoodPartition(states: seq<ConstBits>, classes: seq<nat>, width: nat) {
    && |states| == |classes| > 0 && Dense(classes) && Distinct(states)
    && (forall i :: 0 <= i < |states| ==> |states[i]| == width && Resolved(states[i]))
  }

  function StateBits(states: seq<ConstBits>): (bits: seq<seq<bool>>)
    ensures |bits| == |states| && forall i :: 0 <= i < |states| ==> bits[i] == BitsOf(states[i])
  {
    seq(|states|, i requires 0 <= i < |states| => BitsOf(states[i]))
  }

  lemma GoodStates(states: seq<ConstBits>, classes: seq<nat>, width: nat)
    requires GoodPartition(states, classes, width)
    ensures Distinct(StateBits(states)) && forall i :: 0 <= i < |states| ==> |StateBits(states)[i]| == width
  {
    var bits := StateBits(states);
    forall i, j | 0 <= i < j < |bits| ensures bits[i] != bits[j] {
      if bits[i] == bits[j] {
        BitsOfInjective(states[i], states[j]);
      }
    }
  }

  datatype PartitionBits = PartitionBits(bits: seq<Atom>, valid: Atom)

  /** Matches a value against one state. */
  method EncodeMatch(enc: Encoder, atoms: seq<Atom>, expected: seq<bool>, ghost value: seq<Expr>) returns (equal: Atom)
    requires enc.Valid() && AllDenote(enc.miter.defs, atoms, value, enc.state, enc.bits) && |expected| == |value|
    modifies enc, enc.miter
    ensures enc.Valid() && Stays(old(enc.miter.defs), old(enc.state), old(enc.bits), old(enc.miter.queries), enc)
    ensures Denotes(enc.miter.defs, equal, MatchE(value, expected), enc.state, enc.bits)
  {
    hide Denotes, SignalsMatch, Formula, Defining, InputsMatch, Eval;
    if |atoms| == 0 {
      equal := enc.Constant(true);
      return;
    }
    NotDenotes(enc.miter.defs, atoms[0], value[0], enc.state, enc.bits);
    equal := if expected[0] then atoms[0] else atoms[0].Not();
    for i := 1 to |atoms|
      invariant enc.Valid() && Stays(old(enc.miter.defs), old(enc.state), old(enc.bits), old(enc.miter.queries), enc)
      invariant AllDenote(enc.miter.defs, atoms, value, enc.state, enc.bits)
      invariant Denotes(enc.miter.defs, equal, MatchE(value[..i], expected[..i]), enc.state, enc.bits)
    {
      ghost var before := enc.miter.defs;
      ghost var lastE := if expected[i] then value[i] else NotE(value[i]);
      NotDenotes(enc.miter.defs, atoms[i], value[i], enc.state, enc.bits);
      var last := if expected[i] then atoms[i] else atoms[i].Not();
      equal := enc.And(equal, last, MatchE(value[..i], expected[..i]), lastE);
      AllDenoteKept(before, enc.miter.defs, atoms, value, enc.state, enc.bits);
      assert value[..i + 1][..i] == value[..i] && expected[..i + 1][..i] == expected[..i];
    }
    assert value[..|value|] == value && expected[..|value|] == expected;
  }

  /** The class code of the matching state, and whether any state matches. */
  method EncodePartition(enc: Encoder, atoms: seq<Atom>, states: seq<ConstBits>, classes: seq<nat>,
                         ghost value: seq<Expr>)
    returns (result: Result<PartitionBits>)
    requires enc.Valid() && AllDenote(enc.miter.defs, atoms, value, enc.state, enc.bits)
    modifies enc, enc.miter
    ensures enc.Valid() && Stays(old(enc.miter.defs), old(enc.state), old(enc.bits), old(enc.miter.queries), enc)
    ensures result.Success? <==> GoodPartition(states, classes, |value|)
    ensures result != Error(SolverFailure)
    ensures result.Success? ==>
              var width := CodeWidth(MaxClass(classes) + 1);
              && AllDenote(enc.miter.defs, result.value.bits,
                  CodeBitsE(value, StateBits(states), classes, width, |states|), enc.state, enc.bits)
              && Denotes(enc.miter.defs, result.value.valid, ValidE(value, StateBits(states), |states|), enc.state,
                  enc.bits)
  {
    hide Denotes, AllDenote, SignalsMatch, Formula, Defining, InputsMatch, Eval, MatchE;
    DenoteLength(enc.miter.defs, atoms, value, enc.state, enc.bits);
    if |states| != |classes| || classes == [] { return Error(Invalid); }
    DenseIsCounted(classes);
    var ids: set<nat> := set c | c in classes;
    assert ids == Members(classes);
    if |ids| != MaxClass(classes) + 1 { return Error(Invalid); }
    var distinct := AllDistinct(states);
    if !distinct { return Error(Invalid); }
    if i :| 0 <= i < |states| && ConstantAssignment(states[i], |atoms|).Error? {
      return Error(ConstantAssignment(states[i], |atoms|).error);
    }
    forall i | 0 <= i < |states| ensures |states[i]| == |value| && Resolved(states[i]) {
      assert ConstantAssignment(states[i], |atoms|).Success?;
    }
    var width := CodeWidth(MaxClass(classes) + 1);
    var spelled := StateBits(states);
    result := EncodeCodes(enc, atoms, spelled, classes, width, value);
  }

  method EncodeCodes(enc: Encoder, atoms: seq<Atom>, states: seq<seq<bool>>, classes: seq<nat>, width: nat,
                     ghost value: seq<Expr>)
    returns (result: Result<PartitionBits>)
    requires enc.Valid() && AllDenote(enc.miter.defs, atoms, value, enc.state, enc.bits)
    requires |states| == |classes| > 0 && SameWidth(value, states)
    modifies enc, enc.miter
    ensures enc.Valid() && Stays(old(enc.miter.defs), old(enc.state), old(enc.bits), old(enc.miter.queries), enc)
    ensures result.Success?
    ensures AllDenote(enc.miter.defs, result.value.bits, CodeBitsE(value, states, classes, width, |states|), enc.state,
        enc.bits)
    ensures Denotes(enc.miter.defs, result.value.valid, ValidE(value, states, |states|), enc.state, enc.bits)
  {
    hide Denotes, AllDenote, SignalsMatch, Formula, Defining, InputsMatch, Eval, MatchE;
    var bits := Constants(enc, classes[0], width);
    assert CodeBitsE(value, states, classes, width, 0) == ConstantsE(classes[0], width);
    var matches: seq<Atom> := [];
    NothingDenotes(enc.miter.defs, enc.state, enc.bits);
    for n := 0 to |states|
      invariant enc.Valid() && Stays(old(enc.miter.defs), old(enc.state), old(enc.bits), old(enc.miter.queries), enc)
      invariant AllDenote(enc.miter.defs, atoms, value, enc.state, enc.bits)
      invariant AllDenote(enc.miter.defs, bits, CodeBitsE(value, states, classes, width, n), enc.state, enc.bits)
      invariant AllDenote(enc.miter.defs, matches, MatchesE(value, states, n), enc.state, enc.bits)
    {
      ghost var d0 := enc.miter.defs;
      var equal := EncodeMatch(enc, atoms, states[n], value);
      ghost var d1 := enc.miter.defs;
      AllDenoteKept(d0, d1, bits, CodeBitsE(value, states, classes, width, n), enc.state, enc.bits);
      var code := Constants(enc, classes[n], width);
      assert CodeBitsE(value, states, classes, width, n + 1)
          == SelectE(MatchE(value, states[n]), ConstantsE(classes[n], width),
              CodeBitsE(value, states, classes, width, n));
      bits := SelectAll(enc, equal, code, bits, MatchE(value, states[n]), ConstantsE(classes[n], width),
          CodeBitsE(value, states, classes, width, n));
      AllDenoteKept(d0, enc.miter.defs, atoms, value, enc.state, enc.bits);
      AllDenoteKept(d0, enc.miter.defs, matches, MatchesE(value, states, n), enc.state, enc.bits);
      DenotesKept(d1, enc.miter.defs, equal, MatchE(value, states[n]), enc.state, enc.bits);
      OneMoreDenotes(enc.miter.defs, matches, MatchesE(value, states, n), equal, MatchE(value, states[n]), enc.state,
          enc.bits);
      matches := matches + [equal];
    }
    ghost var d2 := enc.miter.defs;
    var valid := ReduceOr(enc, matches, states, value);
    AllDenoteKept(d2, enc.miter.defs, bits, CodeBitsE(value, states, classes, width, |states|), enc.state, enc.bits);
    result := Success(PartitionBits(bits, valid));
  }

  function ConstantsE(c: nat, width: nat): (es: seq<Expr>)
    ensures |es| == width
  {
    seq(width, k requires 0 <= k < width => ConstE(CodeBit(c, k)))
  }

  ghost function MatchesE(value: seq<Expr>, states: seq<seq<bool>>, n: nat): (es: seq<Expr>)
    requires SameWidth(value, states) && n <= |states|
    ensures |es| == n && forall i :: 0 <= i < n ==> es[i] == MatchE(value, states[i])
  {
    if n == 0 then [] else MatchesE(value, states, n - 1) + [MatchE(value, states[n - 1])]
  }

  method Constants(enc: Encoder, c: nat, width: nat) returns (atoms: seq<Atom>)
    requires enc.Valid()
    ensures AllDenote(enc.miter.defs, atoms, ConstantsE(c, width), enc.state, enc.bits)
  {
    hide Denotes, SignalsMatch, Formula, Defining, InputsMatch, Eval;
    atoms := [];
    for k := 0 to width
      invariant AllDenote(enc.miter.defs, atoms, ConstantsE(c, width)[..k], enc.state, enc.bits)
    {
      var atom := enc.Constant(CodeBit(c, k));
      OneMoreDenotes(enc.miter.defs, atoms, ConstantsE(c, width)[..k], atom, ConstantsE(c, width)[k], enc.state,
          enc.bits);
      atoms := atoms + [atom];
      assert ConstantsE(c, width)[..k + 1] == ConstantsE(c, width)[..k] + [ConstantsE(c, width)[k]];
    }
    assert ConstantsE(c, width)[..width] == ConstantsE(c, width);
  }

  method ReduceOr(enc: Encoder, matches: seq<Atom>, ghost states: seq<seq<bool>>, ghost value: seq<Expr>)
      returns (valid: Atom)
    requires enc.Valid() && SameWidth(value, states) && 0 < |states|
    requires AllDenote(enc.miter.defs, matches, MatchesE(value, states, |states|), enc.state, enc.bits)
    modifies enc, enc.miter
    ensures enc.Valid() && Stays(old(enc.miter.defs), old(enc.state), old(enc.bits), old(enc.miter.queries), enc)
    ensures Denotes(enc.miter.defs, valid, ValidE(value, states, |states|), enc.state, enc.bits)
  {
    hide Denotes, SignalsMatch, Formula, Defining, InputsMatch, Eval, MatchE, MatchesE;
    valid := matches[0];
    for n := 1 to |matches|
      invariant enc.Valid() && Stays(old(enc.miter.defs), old(enc.state), old(enc.bits), old(enc.miter.queries), enc)
      invariant AllDenote(enc.miter.defs, matches, MatchesE(value, states, |states|), enc.state, enc.bits)
      invariant Denotes(enc.miter.defs, valid, ValidE(value, states, n), enc.state, enc.bits)
    {
      ghost var before := enc.miter.defs;
      valid := enc.Or(valid, matches[n], ValidE(value, states, n), MatchE(value, states[n]));
      AllDenoteKept(before, enc.miter.defs, matches, MatchesE(value, states, |states|), enc.state, enc.bits);
    }
  }

  // ----- the proof -----

  /** Both successors are listed states of one class. */
  ghost predicate SameClass(l: seq<bool>, r: seq<bool>, states: seq<seq<bool>>, classes: seq<nat>)
    requires |states| == |classes|
  {
    exists i, j :: 0 <= i < |states| && 0 <= j < |states| && l == states[i] && r == states[j]
        && classes[i] == classes[j]
  }

  predicate GoodQuery(values: Values, register: Register, signal: seq<nat>, left: ConstBits, right: ConstBits,
                      states: seq<ConstBits>, classes: seq<nat>) {
    && |left| == |signal| && Resolved(left) && |right| == |signal| && Resolved(right)
    && GoodRegister(values, register, |signal|) && GoodPartition(states, classes, |signal|)
  }

  /** The successor of `state` while the other signals follow `env`. */
  function Successor(values: Values, register: Register, signal: seq<nat>, state: ConstBits, env: Boundary): seq<bool>
    requires |state| == |signal| && GoodRegister(values, register, |signal|)
  {
    NextState(values, register, register.resets, BitsOf(state), Bound(env, signal, BitsOf(state)))
  }

  /** The code and validity bits of one evaluation. */
  ghost predicate Encodes(defs: seq<Def>, p: PartitionBits, value: seq<Expr>, states: seq<seq<bool>>, classes: seq<nat>,
                          width: nat, signal: seq<nat>, bits: seq<bool>)
    requires SameWidth(value, states) && |states| == |classes| > 0 && |bits| == |signal|
  {
    && AllDenote(defs, p.bits, CodeBitsE(value, states, classes, width, |states|), signal, bits)
    && Denotes(defs, p.valid, ValidE(value, states, |states|), signal, bits)
  }

  /** Under an environment whose value is state `i`, the bits spell that state's class. */
  lemma EncodesState(defs: seq<Def>, p: PartitionBits, value: seq<Expr>, states: seq<seq<bool>>, classes: seq<nat>,
                     width: nat, signal: seq<nat>, bits: seq<bool>, env: Boundary)
    requires SameWidth(value, states) && |states| == |classes| > 0 && |bits| == |signal| && Distinct(states)
    requires Encodes(defs, p, value, states, classes, width, signal, bits)
    ensures |p.bits| == width
    ensures var word := EvalBits(value, Bound(env, signal, bits));
            && (AtomValue(defs, env, p.valid) <==> word in states)
            && (forall i, k :: 0 <= i < |states| && word == states[i] && 0 <= k < width ==>
                  AtomValue(defs, env, p.bits[k]) == CodeBit(classes[i], k))
  {
    hide VarValue, Eval, CodeBit;
    var bound := Bound(env, signal, bits);
    ValidMeaning(value, states, |states|, bound);
    assert states[..|states|] == states;
    assert AtomValue(defs, env, p.valid) == Eval(ValidE(value, states, |states|), bound);
    forall i, k | 0 <= i < |states| && EvalBits(value, bound) == states[i] && 0 <= k < width
      ensures AtomValue(defs, env, p.bits[k]) == CodeBit(classes[i], k)
    {
      CodeMeaning(value, states, classes, k, |states|, bound, i);
      var code := CodeBitsE(value, states, classes, width, |states|);
      assert Denotes(defs, p.bits[k], code[k], signal, bits);
      assert AtomValue(defs, env, p.bits[k]) == Eval(code[k], bound);
    }
  }

  lemma ClassesFit(classes: seq<nat>, i: nat)
    requires i < |classes|
    ensures BitLength(classes[i]) <= CodeWidth(MaxClass(classes) + 1)
  {
    BitLengthMonotone(classes[i], MaxClass(classes));
  }

  /** `atom` is the difference of two code bits. */
  ghost predicate XorOf(defs: seq<Def>, atom: Atom, a: Atom, b: Atom) {
    atom.v < |defs| && forall env: Boundary ::
        AtomValue(defs, env, atom) == (AtomValue(defs, env, a) != AtomValue(defs, env, b))
  }

  ghost predicate Differences(defs: seq<Def>, xors: seq<Atom>, l: seq<Atom>, r: seq<Atom>) {
    |xors| <= |l| == |r| && forall k :: 0 <= k < |xors| ==> XorOf(defs, xors[k], l[k], r[k])
  }

  /** Some atom of the final clause is true exactly when the successors part. */
  lemma ClauseParts(defs: seq<Def>, xors: seq<Atom>, left: PartitionBits, right: PartitionBits,
                    value: seq<Expr>, states: seq<seq<bool>>, classes: seq<nat>, signal: seq<nat>,
                    l: seq<bool>, r: seq<bool>, env: Boundary)
    requires SameWidth(value, states) && |states| == |classes| > 0 && |l| == |r| == |signal| && Distinct(states)
    requires var width := CodeWidth(MaxClass(classes) + 1);
             && Encodes(defs, left, value, states, classes, width, signal, l)
             && Encodes(defs, right, value, states, classes, width, signal, r)
    requires Differences(defs, xors, left.bits, right.bits) && |xors| == |left.bits|
    ensures var clause := xors + [left.valid.Not(), right.valid.Not()];
            (exists i :: 0 <= i < |clause| && AtomValue(defs, env, clause[i])) <==>
            !SameClass(EvalBits(value, Bound(env, signal, l)), EvalBits(value, Bound(env, signal, r)), states, classes)
  {
    hide VarValue, Eval, CodeBit, Encodes, XorOf, Differences, SameClass, AtomValue;
    var width := CodeWidth(MaxClass(classes) + 1);
    var lw, rw := EvalBits(value, Bound(env, signal, l)), EvalBits(value, Bound(env, signal, r));
    EncodesState(defs, left, value, states, classes, width, signal, l, env);
    EncodesState(defs, right, value, states, classes, width, signal, r, env);
    ClauseSplit(defs, env, xors, left.valid, right.valid);
    if lw in states && rw in states {
      var i :| 0 <= i < |states| && lw == states[i];
      var j :| 0 <= j < |states| && rw == states[j];
      CodesDiffer(defs, xors, left, right, classes, i, j, env);
      SameClassAt(lw, rw, states, classes, i, j);
    } else {
      NoClass(lw, rw, states, classes);
    }
  }

  /** The clause is true through a difference, or through a value that is no listed state. */
  lemma ClauseSplit(defs: seq<Def>, env: Boundary, xors: seq<Atom>, left: Atom, right: Atom)
    ensures var clause := xors + [left.Not(), right.Not()];
            (exists i :: 0 <= i < |clause| && AtomValue(defs, env, clause[i])) <==>
            (exists i :: 0 <= i < |xors| && AtomValue(defs, env, xors[i])) || !AtomValue(defs, env, left)
                || !AtomValue(defs, env, right)
  {
    hide VarValue;
    var clause := xors + [left.Not(), right.Not()];
    assert clause[|xors|] == left.Not() && clause[|xors| + 1] == right.Not();
    if i :| 0 <= i < |xors| && AtomValue(defs, env, xors[i]) { assert AtomValue(defs, env, clause[i]); }
    if !AtomValue(defs, env, left) { assert AtomValue(defs, env, clause[|xors|]); }
    if !AtomValue(defs, env, right) { assert AtomValue(defs, env, clause[|xors| + 1]); }
  }

  lemma SameClassAt(l: seq<bool>, r: seq<bool>, states: seq<seq<bool>>, classes: seq<nat>, i: nat, j: nat)
    requires Distinct(states) && |states| == |classes| && i < |states| && j < |states| && l == states[i]
    requires r == states[j]
    ensures SameClass(l, r, states, classes) <==> classes[i] == classes[j]
  {
    OnlyState(states, i);
    OnlyState(states, j);
  }

  lemma NoClass(l: seq<bool>, r: seq<bool>, states: seq<seq<bool>>, classes: seq<nat>)
    requires |states| == |classes| && (l !in states || r !in states)
    ensures !SameClass(l, r, states, classes)
  {
  }

  lemma OnlyState(states: seq<seq<bool>>, i: nat)
    requires Distinct(states) && i < |states|
    ensures forall k :: 0 <= k < |states| && states[k] == states[i] ==> k == i
  {
  }

  /** Some difference bit is true exactly when the two classes differ. */
  lemma CodesDiffer(defs: seq<Def>, xors: seq<Atom>, left: PartitionBits, right: PartitionBits, classes: seq<nat>,
                    i: nat, j: nat, env: Boundary)
    requires i < |classes| && j < |classes| && Differences(defs, xors, left.bits, right.bits)
    requires var width := CodeWidth(MaxClass(classes) + 1);
             && |xors| == |left.bits| == |right.bits| == width
             && forall k :: 0 <= k < width ==>
                  && AtomValue(defs, env, left.bits[k]) == CodeBit(classes[i], k)
                  && AtomValue(defs, env, right.bits[k]) == CodeBit(classes[j], k)
    ensures (exists k :: 0 <= k < |xors| && AtomValue(defs, env, xors[k])) <==> classes[i] != classes[j]
  {
    hide VarValue, CodeBit, XorOf;
    forall k | 0 <= k < |xors| ensures AtomValue(defs, env, xors[k])
        == (CodeBit(classes[i], k) != CodeBit(classes[j], k)) {
      XorValue(defs, xors[k], left.bits[k], right.bits[k], env);
    }
    ClassesFit(classes, i);
    ClassesFit(classes, j);
    if forall k :: 0 <= k < |xors| ==> CodeBit(classes[i], k) == CodeBit(classes[j], k) {
      CodeInjective(classes[i], classes[j], |xors|);
    }
  }

  lemma XorValue(defs: seq<Def>, atom: Atom, a: Atom, b: Atom, env: Boundary)
    requires XorOf(defs, atom, a, b)
    ensures AtomValue(defs, env, atom) == (AtomValue(defs, env, a) != AtomValue(defs, env, b))
  {
  }

  lemma EncodesKept(defs: seq<Def>, defs': seq<Def>, p: PartitionBits, value: seq<Expr>, states: seq<seq<bool>>,
                    classes: seq<nat>,
                    width: nat, signal: seq<nat>, bits: seq<bool>)
    requires SameWidth(value, states) && |states| == |classes| > 0 && |bits| == |signal| && defs <= defs'
    requires Encodes(defs, p, value, states, classes, width, signal, bits)
    ensures Encodes(defs', p, value, states, classes, width, signal, bits)
  {
    hide AllDenote, Denotes;
    AllDenoteKept(defs, defs', p.bits, CodeBitsE(value, states, classes, width, |states|), signal, bits);
    DenotesKept(defs, defs', p.valid, ValidE(value, states, |states|), signal, bits);
  }

  lemma EncodesBelow(defs: seq<Def>, p: PartitionBits, value: seq<Expr>, states: seq<seq<bool>>, classes: seq<nat>,
                     width: nat, signal: seq<nat>, bits: seq<bool>)
    requires SameWidth(value, states) && |states| == |classes| > 0 && |bits| == |signal|
    requires Encodes(defs, p, value, states, classes, width, signal, bits)
    ensures |p.bits| == width && p.valid.v < |defs| && forall k :: 0 <= k < width ==> p.bits[k].v < |defs|
  {
    forall k | 0 <= k < width ensures p.bits[k].v < |defs| {
      DenotesBelow(defs, p.bits[k], CodeBitsE(value, states, classes, width, |states|)[k], signal, bits);
    }
  }

  lemma XorAdded(defs: seq<Def>, xors: seq<Atom>, l: seq<Atom>, r: seq<Atom>)
    requires Differences(defs, xors, l, r) && |xors| < |l|
    requires forall k :: 0 <= k < |l| ==> l[k].v < |defs| && r[k].v < |defs|
    ensures var k := |xors|;
            Differences(defs + [XorDef(l[k], r[k])], xors + [Atom(|defs|, false)], l, r)
  {
    var n := |xors|;
    var defs' := defs + [XorDef(l[n], r[n])];
    var xors' := xors + [Atom(|defs|, false)];
    forall k | 0 <= k < |xors'| ensures XorOf(defs', xors'[k], l[k], r[k]) {
      if k < n { assert XorOf(defs, xors[k], l[k], r[k]); }
      forall env: Boundary
        ensures AtomValue(defs', env, xors'[k]) == (AtomValue(defs', env, l[k]) != AtomValue(defs', env, r[k]))
      {
        VarValuePrefix(defs, defs', env, l[k].v);
        VarValuePrefix(defs, defs', env, r[k].v);
        if k < n {
          VarValuePrefix(defs, defs', env, xors[k].v);
          XorValue(defs, xors[k], l[k], r[k], env);
        }
      }
    }
  }

  /** Encodes the register update and its partition for one bound state. */
  method Evaluate(enc: Encoder, register: Register, signal: seq<nat>, state: ConstBits, states: seq<ConstBits>,
                  classes: seq<nat>)
    returns (result: Result<PartitionBits>)
    requires enc.miter.Valid() && Distinct(signal) && FreeSignals(enc.miter.defs, enc.signals, signal)
    requires enc.cache == map[]
    requires Shares(enc.miter.inputs, enc.signals, signal)
    modifies enc, enc.miter
    ensures enc.miter.Valid() && old(enc.miter.defs) <= enc.miter.defs && enc.miter.queries == old(enc.miter.queries)
    ensures result != Error(SolverFailure)
    ensures result.Success? <==>
              && |state| == |signal| && Resolved(state)
              && GoodRegister(enc.values, register, |signal|) && GoodPartition(states, classes, |signal|)
    ensures result.Success? ==>
              && enc.Valid() && enc.state == signal
              && SameWidth(NextE(enc.values, register, register.resets, signal), StateBits(states))
              && Encodes(enc.miter.defs, result.value, NextE(enc.values, register, register.resets, signal),
                  StateBits(states), classes,
                         CodeWidth(MaxClass(classes) + 1), signal, BitsOf(state))
  {
    hide Denotes, AllDenote, SignalsMatch, Formula, Defining, InputsMatch, FreeSignals, Shares, Dense, Distinct;
    var bits := ConstantAssignment(state, |signal|);
    if bits.Error? { return Error(bits.error); }
    enc.Bind(signal, bits.value);
    var next := RegisterNext(enc, register, signal);
    if next.Error? { return Error(next.error); }
    result := EncodePartition(enc, next.value, states, classes, NextE(enc.values, register, register.resets, signal));
  }

  /** Proved exactly when, whatever the other signals do, both successors are
      listed states and share a class. */
  method ProveSuccessors(solver: Solver, values: Values, register: Register, signal: seq<nat>, left: ConstBits,
                         right: ConstBits,
                         states: seq<ConstBits>, classes: seq<nat>) returns (result: Result<Outcome>)
    requires Correct(solver) && Distinct(signal)
    ensures result.Error? && result.error != SolverFailure <==>
        !GoodQuery(values, register, signal, left, right, states, classes)
    ensures result == Error(SolverFailure) ==> !NeverFails(solver)
    ensures result.Success? ==>
              (result.value.Proved? <==>
                 forall env: Boundary ::
                   SameClass(Successor(values, register, signal, left, env),
                       Successor(values, register, signal, right, env), StateBits(states), classes))
  {
    hide Encodes, Formula, Defining, InputsMatch, FreeSignals, SignalsMatch, GoodPartition, AllDenote, Denotes,
        VarValue, SatisfiesAll, Differences, SameClass, Eval;
    if states == [] || |states| != |classes| {
      EmptyPartition(states, classes, |signal|);
      return Error(Invalid);
    }
    var enc := new Encoder(values);
    FreshSignals(enc.miter.defs, signal);
    var l := Evaluate(enc, register, signal, left, states, classes);
    if l.Error? { return Error(l.error); }
    ghost var d0 := enc.miter.defs;
    enc.PrepareSecondEvaluation(signal);
    var r := Evaluate(enc, register, signal, right, states, classes);
    if r.Error? { return Error(r.error); }
    ghost var value := NextE(values, register, register.resets, signal);
    ghost var width := CodeWidth(MaxClass(classes) + 1);
    ghost var spelled := StateBits(states);
    EncodesKept(d0, enc.miter.defs, l.value, value, spelled, classes, width, signal, BitsOf(left));
    EncodesBelow(enc.miter.defs, l.value, value, spelled, classes, width, signal, BitsOf(left));
    EncodesBelow(enc.miter.defs, r.value, value, spelled, classes, width, signal, BitsOf(right));
    var miter := enc.miter;
    var xors: seq<Atom> := [];
    NoDifferences(miter.defs, l.value.bits, r.value.bits);
    ghost var d1 := miter.defs;
    for k := 0 to |l.value.bits|
      invariant miter.Valid() && fresh(miter) && d1 <= miter.defs && |xors| == k
      invariant Differences(miter.defs, xors, l.value.bits, r.value.bits)
    {
      XorAdded(miter.defs, xors, l.value.bits, r.value.bits);
      var atom := miter.Xor(l.value.bits[k], r.value.bits[k]);
      xors := xors + [atom];
    }
    EncodesKept(d1, miter.defs, l.value, value, spelled, classes, width, signal, BitsOf(left));
    EncodesKept(d1, miter.defs, r.value, value, spelled, classes, width, signal, BitsOf(right));
    var clause := xors + [l.value.valid.Not(), r.value.valid.Not()];
    ProofMeaning(miter.defs, miter.inputs, xors, l.value, r.value, values, register, signal, left, right, states,
        classes);
    miter.AddClause(clause);
    assert miter.clauses == Formula(miter.defs) + [clause];
    var verdict := miter.Solve(solver, []);
    VerdictMeaning(solver, miter.queries - 1, miter.clauses);
    match verdict
    case Failed => result := Error(SolverFailure);
    case Sat(_) => result := Success(Disproved);
    case Unsat => result := Success(Proved(enc.encodedValues, miter.clauseCount));
  }

  lemma EmptyPartition(states: seq<ConstBits>, classes: seq<nat>, width: nat)
    requires states == [] || |states| != |classes|
    ensures !GoodPartition(states, classes, width)
  {
  }

  lemma FreshSignals(defs: seq<Def>, signal: seq<nat>)
    ensures FreeSignals(defs, map[], signal)
  {
  }

  lemma NoDifferences(defs: seq<Def>, l: seq<Atom>, r: seq<Atom>)
    requires |l| == |r|
    ensures Differences(defs, [], l, r)
  {
  }

  lemma DifferencesBelow(defs: seq<Def>, xors: seq<Atom>, l: seq<Atom>, r: seq<Atom>)
    requires Differences(defs, xors, l, r)
    ensures forall k :: 0 <= k < |xors| ==> xors[k].v < |defs|
  {
    forall k | 0 <= k < |xors| ensures xors[k].v < |defs| { assert XorOf(defs, xors[k], l[k], r[k]); }
  }

  /** The whole formula is satisfiable exactly when some environment parts the successors. */
  lemma ProofMeaning(defs: seq<Def>, inputs: map<nat, Atom>, xors: seq<Atom>, l: PartitionBits, r: PartitionBits,
                     values: Values, register: Register, signal: seq<nat>, left: ConstBits, right: ConstBits,
                     states: seq<ConstBits>, classes: seq<nat>)
    requires Defining(defs) && InputsMatch(inputs, defs) && Distinct(signal)
    requires GoodQuery(values, register, signal, left, right, states, classes)
    requires var value := NextE(values, register, register.resets, signal);
             var width := CodeWidth(MaxClass(classes) + 1);
             && SameWidth(value, StateBits(states))
             && Encodes(defs, l, value, StateBits(states), classes, width, signal, BitsOf(left))
             && Encodes(defs, r, value, StateBits(states), classes, width, signal, BitsOf(right))
    requires Differences(defs, xors, l.bits, r.bits) && |xors| == |l.bits|
    ensures Satisfiable(Formula(defs) + [xors + [l.valid.Not(), r.valid.Not()]]) <==>
            !(forall env: Boundary ::
                SameClass(Successor(values, register, signal, left, env),
                    Successor(values, register, signal, right, env), StateBits(states), classes))
  {
    hide Encodes, Formula, Defining, InputsMatch, VarValue, Satisfiable, Differences, SameClass, Eval, Dense, NextState,
        NextE, CodeWidth;
    var value := NextE(values, register, register.resets, signal);
    var width := CodeWidth(MaxClass(classes) + 1);
    var clause := xors + [l.valid.Not(), r.valid.Not()];
    GoodStates(states, classes, |signal|);
    DifferencesBelow(defs, xors, l.bits, r.bits);
    EncodesBelow(defs, l, value, StateBits(states), classes, width, signal, BitsOf(left));
    EncodesBelow(defs, r, value, StateBits(states), classes, width, signal, BitsOf(right));
    ClauseMeaning(defs, inputs, clause);
    forall env: Boundary
      ensures (exists i :: 0 <= i < |clause| && AtomValue(defs, env, clause[i])) <==>
              !SameClass(Successor(values, register, signal, left, env),
                  Successor(values, register, signal, right, env), StateBits(states), classes)
    {
      ClauseParts(defs, xors, l, r, value, StateBits(states), classes, signal, BitsOf(left), BitsOf(right), env);
      NextMeaning(values, register, register.resets, signal, BitsOf(left), env);
      NextMeaning(values, register, register.resets, signal, BitsOf(right), env);
    }
    if Satisfiable(Formula(defs) + [clause]) {
      var env: Boundary, i :| 0 <= i < |clause| && AtomValue(defs, env, clause[i]);
      assert !SameClass(Successor(values, register, signal, left, env), Successor(values, register, signal, right, env),
          StateBits(states), classes);
    } else {
      forall env: Boundary
        ensures SameClass(Successor(values, register, signal, left, env),
            Successor(values, register, signal, right, env), StateBits(states), classes)
      {
        assert !exists i :: 0 <= i < |clause| && AtomValue(defs, env, clause[i]);
      }
    }
  }
}
