/** Encoding of register updates. A word value is the vector of Boolean
    expressions of its bits over signal bits; one signal, the state, is bound to
    a constant, and every other signal bit is one shared variable. */
module WordEncoder {
  import opened Lists
  import opened Cnf
  import opened LogicMiter

  datatype Expr =
    | ConstE(value: bool)
    | BitE(id: nat)
    | NotE(arg: Expr)
    | AndE(left: Expr, right: Expr)
    | OrE(left: Expr, right: Expr)
    | XorE(left: Expr, right: Expr)
    | IteE(cond: Expr, whenTrue: Expr, whenFalse: Expr)

  function Eval(e: Expr, env: Boundary): bool {
    match e
    case ConstE(b) => b
    case BitE(id) => env(id)
    case NotE(a) => !Eval(a, env)
    case AndE(l, r) => Eval(l, env) && Eval(r, env)
    case OrE(l, r) => Eval(l, env) || Eval(r, env)
    case XorE(l, r) => Eval(l, env) != Eval(r, env)
    case IteE(c, t, f) => if Eval(c, env) then Eval(t, env) else Eval(f, env)
  }

  /** Position of a signal bit in the state signal. */
  function IndexOf(state: seq<nat>, id: nat): (i: nat)
    ensures i <= |state| && (i < |state| <==> id in state)
    ensures i < |state| ==> state[i] == id
  {
    if state == [] then 0 else if state[0] == id then 0 else 1 + IndexOf(state[1..], id)
  }

  /** The environment in which the state signal holds `bits`. */
  function Bound(env: Boundary, state: seq<nat>, bits: seq<bool>): Boundary
    requires |bits| == |state|
  {
    (id: nat) => if id in state then bits[IndexOf(state, id)] else env(id)
  }

  /** Under every environment of the other signals, the atom has the expression's value. */
  ghost predicate Denotes(defs: seq<Def>, atom: Atom, e: Expr, state: seq<nat>, bits: seq<bool>)
    requires |bits| == |state|
  {
    atom.v < |defs| && forall env: Boundary :: AtomValue(defs, env, atom) == Eval(e, Bound(env, state, bits))
  }

  ghost predicate AllDenote(defs: seq<Def>, atoms: seq<Atom>, es: seq<Expr>, state: seq<nat>, bits: seq<bool>)
    requires |bits| == |state|
  {
    |atoms| == |es| && forall i :: 0 <= i < |es| ==> Denotes(defs, atoms[i], es[i], state, bits)
  }

  lemma DenotesKept(defs: seq<Def>, defs': seq<Def>, atom: Atom, e: Expr, state: seq<nat>, bits: seq<bool>)
    requires |bits| == |state| && defs <= defs' && Denotes(defs, atom, e, state, bits)
    ensures Denotes(defs', atom, e, state, bits)
  {
    hide Eval;
    forall env: Boundary
      ensures AtomValue(defs', env, atom) == Eval(e, Bound(env, state, bits))
    {
      VarValuePrefix(defs, defs', env, atom.v);
      assert AtomValue(defs, env, atom) == Eval(e, Bound(env, state, bits));
    }
  }

  lemma AllDenoteKept(defs: seq<Def>, defs': seq<Def>, atoms: seq<Atom>, es: seq<Expr>, state: seq<nat>,
                      bits: seq<bool>)
    requires |bits| == |state| && defs <= defs' && AllDenote(defs, atoms, es, state, bits)
    ensures AllDenote(defs', atoms, es, state, bits)
  {
    hide Denotes;
    forall i | 0 <= i < |es| ensures Denotes(defs', atoms[i], es[i], state, bits) {
      DenotesKept(defs, defs', atoms[i], es[i], state, bits);
    }
  }

  // ----- what each gate denotes -----

  lemma ConstDenotes(defs: seq<Def>, b: bool, state: seq<nat>, bits: seq<bool>)
    requires |bits| == |state| && 0 < |defs| && defs[0] == FalseDef
    ensures Denotes(defs, Atom(0, b), ConstE(b), state, bits)
  {
  }

  lemma NotDenotes(defs: seq<Def>, a: Atom, e: Expr, state: seq<nat>, bits: seq<bool>)
    requires |bits| == |state| && Denotes(defs, a, e, state, bits)
    ensures Denotes(defs, a.Not(), NotE(e), state, bits)
  {
    forall env: Boundary
      ensures AtomValue(defs, env, a.Not()) == Eval(NotE(e), Bound(env, state, bits))
    {
      assert AtomValue(defs, env, a) == Eval(e, Bound(env, state, bits));
    }
  }

  /** An appended gate computes its definition from the values of its operands. */
  lemma AppendedValue(defs: seq<Def>, def: Def, env: Boundary)
    requires DefBelow(def, |defs|)
    ensures var (x, y, z) := Operands(def);
            var value := AtomValue(defs + [def], env, Atom(|defs|, false));
            match def
            case FalseDef => !value
            case InputDef(origin) => value == env(origin)
            case AndDef(_, _) => value == (AtomValue(defs, env, x) && AtomValue(defs, env, y))
            case OrDef(_, _) => value == (AtomValue(defs, env, x) || AtomValue(defs, env, y))
            case XorDef(_, _) => value == (AtomValue(defs, env, x) != AtomValue(defs, env, y))
            case MuxDef(_, _, _) => value == if AtomValue(defs, env, x) then AtomValue(defs, env, y)
                else AtomValue(defs, env, z)
  {
    var (x, y, z) := Operands(def);
    var defs' := defs + [def];
    assert defs'[|defs|] == def;
    if x.v < |defs| { VarValuePrefix(defs, defs', env, x.v); }
    if y.v < |defs| { VarValuePrefix(defs, defs', env, y.v); }
    if z.v < |defs| { VarValuePrefix(defs, defs', env, z.v); }
  }

  lemma AndDenotes(defs: seq<Def>, a: Atom, b: Atom, l: Expr, r: Expr, state: seq<nat>, bits: seq<bool>)
    requires |bits| == |state| && Denotes(defs, a, l, state, bits) && Denotes(defs, b, r, state, bits)
    ensures Denotes(defs + [AndDef(a, b)], Atom(|defs|, false), AndE(l, r), state, bits)
  {
    hide VarValue, Bound, AtomValue;
    forall env: Boundary
      ensures AtomValue(defs + [AndDef(a, b)], env, Atom(|defs|, false)) == Eval(AndE(l, r), Bound(env, state, bits))
    {
      AppendedValue(defs, AndDef(a, b), env);
    }
  }

  lemma XorDenotes(defs: seq<Def>, a: Atom, b: Atom, l: Expr, r: Expr, state: seq<nat>, bits: seq<bool>)
    requires |bits| == |state| && Denotes(defs, a, l, state, bits) && Denotes(defs, b, r, state, bits)
    ensures Denotes(defs + [XorDef(a, b)], Atom(|defs|, false), XorE(l, r), state, bits)
  {
    hide VarValue, Bound, AtomValue;
    forall env: Boundary
      ensures AtomValue(defs + [XorDef(a, b)], env, Atom(|defs|, false)) == Eval(XorE(l, r), Bound(env, state, bits))
    {
      AppendedValue(defs, XorDef(a, b), env);
    }
  }

  lemma OrDenotes(defs: seq<Def>, a: Atom, b: Atom, l: Expr, r: Expr, state: seq<nat>, bits: seq<bool>)
    requires |bits| == |state| && Denotes(defs, a, l, state, bits) && Denotes(defs, b, r, state, bits)
    ensures Denotes(defs + [OrDef(a, b)], Atom(|defs|, false), OrE(l, r), state, bits)
  {
    hide VarValue, Bound, AtomValue;
    forall env: Boundary
      ensures AtomValue(defs + [OrDef(a, b)], env, Atom(|defs|, false)) == Eval(OrE(l, r), Bound(env, state, bits))
    {
      AppendedValue(defs, OrDef(a, b), env);
    }
  }

  lemma IteDenotes(defs: seq<Def>, a: Atom, b: Atom, c: Atom, s: Expr, t: Expr, f: Expr, state: seq<nat>,
                   bits: seq<bool>)
    requires |bits| == |state| && Denotes(defs, a, s, state, bits)
    requires Denotes(defs, b, t, state, bits) && Denotes(defs, c, f, state, bits)
    ensures Denotes(defs + [MuxDef(a, b, c)], Atom(|defs|, false), IteE(s, t, f), state, bits)
  {
    hide VarValue, Bound, AtomValue;
    forall env: Boundary
      ensures AtomValue(defs + [MuxDef(a, b, c)], env, Atom(|defs|, false))
          == Eval(IteE(s, t, f), Bound(env, state, bits))
    {
      AppendedValue(defs, MuxDef(a, b, c), env);
    }
  }

  lemma SignalDenotes(defs: seq<Def>, v: nat, id: nat, state: seq<nat>, bits: seq<bool>)
    requires |bits| == |state| && v < |defs| && defs[v] == InputDef(id) && id !in state
    ensures Denotes(defs, Atom(v, false), BitE(id), state, bits)
  {
  }

  /** A state bit denotes its bound constant. */
  lemma BoundDenotes(defs: seq<Def>, i: nat, state: seq<nat>, bits: seq<bool>)
    requires |bits| == |state| && i < |state| && Distinct(state) && 0 < |defs| && defs[0] == FalseDef
    ensures Denotes(defs, Atom(0, bits[i]), BitE(state[i]), state, bits)
  {
    assert IndexOf(state, state[i]) == i;
  }

  // ----- the encoder -----

  /** Word values by ID, each a vector of bit expressions, least significant first. */
  type Values = seq<seq<Expr>>

  /** State bits are bound to their constants; every other known bit is its input variable. */
  predicate SignalsMatch(defs: seq<Def>, signals: map<nat, Atom>, state: seq<nat>, bits: seq<bool>)
    requires |bits| == |state|
  {
    && (forall i :: 0 <= i < |state| ==> state[i] in signals && signals[state[i]] == Atom(0, bits[i]))
    && FreeSignals(defs, signals, state)
  }

  predicate FreeSignals(defs: seq<Def>, signals: map<nat, Atom>, state: seq<nat>) {
    forall id :: id in signals && id !in state ==>
      !signals[id].negative && signals[id].v < |defs| && defs[signals[id].v] == InputDef(id)
  }

  /** Every variable of a signal bit outside the state is still known as that bit:
      a later read of the bit finds it instead of making another variable. */
  predicate Shares(inputs: map<nat, Atom>, signals: map<nat, Atom>, state: seq<nat>) {
    forall id :: id in inputs && id !in state ==> id in signals
  }

  /** The map without the bits of one signal. */
  function Without(signals: map<nat, Atom>, signal: seq<nat>): (rest: map<nat, Atom>) {
    map id | id in signals && id !in signal :: signals[id]
  }

  lemma WithoutKeeps(inputs: map<nat, Atom>, defs: seq<Def>, signals: map<nat, Atom>, signal: seq<nat>)
    requires FreeSignals(defs, signals, signal) && Shares(inputs, signals, signal)
    ensures var rest := Without(signals, signal);
            FreeSignals(defs, rest, signal) && Shares(inputs, rest, signal) && Without(rest, signal) == rest
  {
  }

  lemma BindKeeps(inputs: map<nat, Atom>, defs: seq<Def>, signals: map<nat, Atom>, signal: seq<nat>, id: nat,
                  atom: Atom)
    requires FreeSignals(defs, signals, signal) && Shares(inputs, signals, signal) && id in signal
    ensures FreeSignals(defs, signals[id := atom], signal) && Shares(inputs, signals[id := atom], signal)
    ensures Without(signals[id := atom], signal) == Without(signals, signal)
  {
  }

  class Encoder {
    const values: Values
    const miter: Miter
    var signals: map<nat, Atom>
    var cache: map<nat, seq<Atom>>
    var encodedValues: nat
    ghost var state: seq<nat>
    ghost var bits: seq<bool>

    ghost predicate Valid()
      reads this, miter
    {
      && miter.Valid()
      && |bits| == |state| && Distinct(state)
      && SignalsMatch(miter.defs, signals, state, bits)
      && Shares(miter.inputs, signals, state)
      && (forall v :: v in cache ==> v < |values| && AllDenote(miter.defs, cache[v], values[v], state, bits))
    }

    /** What every operation leaves alone. */
    twostate predicate Grown()
      reads this, miter
    {
      old(miter.defs) <= miter.defs && state == old(state) && bits == old(bits) && miter.queries == old(miter.queries)
    }

    constructor (values: Values)
      ensures fresh(miter) && this.values == values && Valid() && state == []
      ensures signals == map[] && cache == map[] && miter.queries == 0
    {
      this.values := values;
      miter := new Miter();
      signals := map[];
      cache := map[];
      encodedValues := 0;
      state := [];
      bits := [];
    }

    lemma Recached(before: seq<Def>)
      requires before <= miter.defs && |bits| == |state|
      requires forall v :: v in cache ==> v < |values| && AllDenote(before, cache[v], values[v], state, bits)
      ensures forall v :: v in cache ==> v < |values| && AllDenote(miter.defs, cache[v], values[v], state, bits)
    {
      hide Denotes, AllDenote;
      forall v | v in cache ensures AllDenote(miter.defs, cache[v], values[v], state, bits) {
        AllDenoteKept(before, miter.defs, cache[v], values[v], state, bits);
      }
    }

    lemma Regrow(before: seq<Def>)
      requires miter.Valid() && before <= miter.defs
      requires |bits| == |state| && Distinct(state)
      requires SignalsMatch(before, signals, state, bits) && Shares(miter.inputs, signals, state)
      requires forall v :: v in cache ==> v < |values| && AllDenote(before, cache[v], values[v], state, bits)
      ensures Valid()
    {
      hide Denotes, AllDenote;
      Recached(before);
    }

    /** Replaces whatever the signal meant before by a constant. */
    method Bind(signal: seq<nat>, value: seq<bool>)
      requires miter.Valid() && Distinct(signal) && |signal| == |value|
      requires FreeSignals(miter.defs, signals, signal) && Shares(miter.inputs, signals, signal) && cache == map[]
      modifies this
      ensures Valid() && state == signal && bits == value
      ensures Without(signals, signal) == Without(old(signals), signal)
    {
      hide Formula, Defining, InputsMatch, Without, FreeSignals, Shares;
      WithoutKeeps(miter.inputs, miter.defs, signals, signal);
      signals := Without(signals, signal);
      for i := 0 to |signal|
        invariant cache == map[] && FreeSignals(miter.defs, signals, signal) && Shares(miter.inputs, signals, signal)
        invariant Without(signals, signal) == Without(old(signals), signal)
        invariant forall j :: 0 <= j < i ==> signal[j] in signals && signals[signal[j]] == Atom(0, value[j])
      {
        var constant := if value[i] then miter.constantFalse.Not() else miter.constantFalse;
        BindKeeps(miter.inputs, miter.defs, signals, signal, signal[i], constant);
        signals := signals[signal[i] := constant];
      }
      state, bits := signal, value;
    }

    /** Forgets the bound signal and every cached value; free signals stay shared. */
    method PrepareSecondEvaluation(signal: seq<nat>)
      requires Valid() && state == signal
      modifies this
      ensures miter.Valid() && FreeSignals(miter.defs, signals, signal) && Shares(miter.inputs, signals, signal)
      ensures signals == Without(old(signals), signal) && cache == map[]
    {
      hide Denotes, AllDenote, Formula, Defining, InputsMatch;
      signals := Without(signals, signal);
      cache := map[];
    }

    /** A known bit keeps its literal; any other bit gets a new variable. */
    method Signal(id: nat) returns (atom: Atom)
      requires Valid()
      modifies this, miter
      ensures Valid() && Grown() && Denotes(miter.defs, atom, BitE(id), state, bits)
      ensures cache == old(cache) && signals == old(signals)[id := atom]
      ensures id !in old(signals) ==> atom == Atom(|old(miter.defs)|, false)
    {
      hide Denotes, AllDenote, Formula, Defining, InputsMatch;
      if id in signals {
        if id in state {
          BoundDenotes(miter.defs, IndexOf(state, id), state, bits);
        } else {
          SignalDenotes(miter.defs, signals[id].v, id, state, bits);
        }
        return signals[id];
      }
      ghost var before := miter.defs;
      atom := miter.FreshInput(id);
      signals := signals[id := atom];
      Recached(before);
      SignalDenotes(miter.defs, atom.v, id, state, bits);
    }

    method Constant(value: bool) returns (atom: Atom)
      requires Valid()
      ensures Denotes(miter.defs, atom, ConstE(value), state, bits)
    {
      atom := if value then miter.constantFalse.Not() else miter.constantFalse;
      ConstDenotes(miter.defs, value, state, bits);
    }

    method And(a: Atom, b: Atom, ghost l: Expr, ghost r: Expr) returns (out: Atom)
      requires Valid() && Denotes(miter.defs, a, l, state, bits) && Denotes(miter.defs, b, r, state, bits)
      modifies this, miter
      ensures Valid() && Grown() && Denotes(miter.defs, out, AndE(l, r), state, bits)
      ensures cache == old(cache)
    {
      DenotesBelow(miter.defs, a, l, state, bits); DenotesBelow(miter.defs, b, r, state, bits);
      hide Denotes, AllDenote, SignalsMatch, Formula, Defining, InputsMatch, Eval;
      ghost var before := miter.defs;
      out := miter.And(a, b);
      Regrow(before);
      AndDenotes(before, a, b, l, r, state, bits);
    }

    method Xor(a: Atom, b: Atom, ghost l: Expr, ghost r: Expr) returns (out: Atom)
      requires Valid() && Denotes(miter.defs, a, l, state, bits) && Denotes(miter.defs, b, r, state, bits)
      modifies this, miter
      ensures Valid() && Grown() && Denotes(miter.defs, out, XorE(l, r), state, bits)
      ensures cache == old(cache)
    {
      DenotesBelow(miter.defs, a, l, state, bits); DenotesBelow(miter.defs, b, r, state, bits);
      hide Denotes, AllDenote, SignalsMatch, Formula, Defining, InputsMatch, Eval;
      ghost var before := miter.defs;
      out := miter.Xor(a, b);
      Regrow(before);
      XorDenotes(before, a, b, l, r, state, bits);
    }

    method Or(a: Atom, b: Atom, ghost l: Expr, ghost r: Expr) returns (out: Atom)
      requires Valid() && Denotes(miter.defs, a, l, state, bits) && Denotes(miter.defs, b, r, state, bits)
      modifies this, miter
      ensures Valid() && Grown() && Denotes(miter.defs, out, OrE(l, r), state, bits)
      ensures cache == old(cache)
    {
      DenotesBelow(miter.defs, a, l, state, bits); DenotesBelow(miter.defs, b, r, state, bits);
      hide Denotes, AllDenote, SignalsMatch, Formula, Defining, InputsMatch, Eval;
      ghost var before := miter.defs;
      out := miter.Or(a, b);
      Regrow(before);
      OrDenotes(before, a, b, l, r, state, bits);
    }

    method Select(a: Atom, b: Atom, c: Atom, ghost s: Expr, ghost t: Expr, ghost f: Expr) returns (out: Atom)
      requires Valid() && Denotes(miter.defs, a, s, state, bits)
      requires Denotes(miter.defs, b, t, state, bits) && Denotes(miter.defs, c, f, state, bits)
      modifies this, miter
      ensures Valid() && Grown() && Denotes(miter.defs, out, IteE(s, t, f), state, bits)
      ensures cache == old(cache)
    {
      DenotesBelow(miter.defs, a, s, state, bits); DenotesBelow(miter.defs, b, t, state, bits);
      DenotesBelow(miter.defs, c, f, state, bits);
      hide Denotes, AllDenote, SignalsMatch, Formula, Defining, InputsMatch, Eval;
      ghost var before := miter.defs;
      out := miter.Mux(a, b, c);
      Regrow(before);
      IteDenotes(before, a, b, c, s, t, f, state, bits);
    }

    method Encode(e: Expr) returns (atom: Atom)
      requires Valid()
      modifies this, miter
      ensures Valid() && Grown() && Denotes(miter.defs, atom, e, state, bits)
      ensures cache == old(cache)
    {
      hide Denotes, AllDenote, SignalsMatch, Formula, Defining, InputsMatch, Eval;
      match e
      case ConstE(b) => atom := Constant(b);
      case BitE(id) => atom := Signal(id);
      case NotE(arg) =>
        atom := Encode(arg);
        NotDenotes(miter.defs, atom, arg, state, bits);
        atom := atom.Not();
      case AndE(l, r) =>
        var a := Encode(l);
        ghost var before := miter.defs;
        var b := Encode(r);
        DenotesKept(before, miter.defs, a, l, state, bits);
        atom := And(a, b, l, r);
      case OrE(l, r) =>
        var a := Encode(l);
        ghost var before := miter.defs;
        var b := Encode(r);
        DenotesKept(before, miter.defs, a, l, state, bits);
        atom := Or(a, b, l, r);
      case XorE(l, r) =>
        var a := Encode(l);
        ghost var before := miter.defs;
        var b := Encode(r);
        DenotesKept(before, miter.defs, a, l, state, bits);
        atom := Xor(a, b, l, r);
      case IteE(c, t, f) =>
        var a := Encode(c);
        ghost var d0 := miter.defs;
        var b := Encode(t);
        ghost var d1 := miter.defs;
        var x := Encode(f);
        DenotesKept(d0, miter.defs, a, c, state, bits);
        DenotesKept(d1, miter.defs, b, t, state, bits);
        atom := Select(a, b, x, c, t, f);
    }

    /** The atoms of a word value, encoded once per evaluation. */
    method Value(v: nat) returns (result: Result<seq<Atom>>)
      requires Valid()
      modifies this, miter
      ensures Valid() && Grown()
      ensures if v < |values| then result.Success? && AllDenote(miter.defs, result.value, values[v], state, bits)
              else result == Error(Invalid)
    {
      hide Denotes, AllDenote, SignalsMatch, Formula, Defining, InputsMatch, Eval;
      if v >= |values| { return Error(Invalid); }
      if v in cache { return Success(cache[v]); }
      var atoms: seq<Atom> := [];
      NothingDenotes(miter.defs, state, bits);
      for i := 0 to |values[v]|
        invariant Valid() && Grown() && v !in cache
        invariant AllDenote(miter.defs, atoms, values[v][..i], state, bits)
      {
        ghost var before := miter.defs;
        var atom := Encode(values[v][i]);
        AllDenoteKept(before, miter.defs, atoms, values[v][..i], state, bits);
        OneMoreDenotes(miter.defs, atoms, values[v][..i], atom, values[v][i], state, bits);
        atoms := atoms + [atom];
        assert values[v][..i + 1] == values[v][..i] + [values[v][i]];
      }
      assert values[v][..|values[v]|] == values[v];
      cache := cache[v := atoms];
      encodedValues := encodedValues + 1;
      result := Success(atoms);
    }
  }

  lemma NothingDenotes(defs: seq<Def>, state: seq<nat>, bits: seq<bool>)
    requires |bits| == |state|
    ensures AllDenote(defs, [], [], state, bits)
  {
  }

  lemma OneMoreDenotes(defs: seq<Def>, atoms: seq<Atom>, es: seq<Expr>, atom: Atom, e: Expr, state: seq<nat>,
                       bits: seq<bool>)
    requires |bits| == |state| && AllDenote(defs, atoms, es, state, bits) && Denotes(defs, atom, e, state, bits)
    ensures AllDenote(defs, atoms + [atom], es + [e], state, bits)
  {
    hide Denotes;
  }

  lemma DenotesBelow(defs: seq<Def>, atom: Atom, e: Expr, state: seq<nat>, bits: seq<bool>)
    requires |bits| == |state| && Denotes(defs, atom, e, state, bits)
    ensures atom.v < |defs|
  {
  }
}
