/** Partition refinement of finite-state machines: the register successors of
    two states are proved to stay in the state set and to share a class. */
module FsmPartition {
  import opened Lists
  import opened Cnf
  import opened LogicMiter
  import opened WordEncoder

  // ----- constants -----

  datatype BitVal = Zero | One | X | Z

  /** Constants are written most significant bit first. */
  type ConstBits = seq<BitVal>

  predicate Resolved(c: ConstBits) {
    forall i :: 0 <= i < |c| ==> c[i].Zero? || c[i].One?
  }

  function BitsOf(c: ConstBits): (bits: seq<bool>)
    ensures |bits| == |c|
  {
    seq(|c|, i requires 0 <= i < |c| => c[|c| - 1 - i].One?)
  }

  /** The bits of a resolved constant of the expected width, least significant first. */
  function ConstantAssignment(c: ConstBits, width: nat): (r: Result<seq<bool>>)
    ensures |c| != width ==> r == Error(Invalid)
    ensures |c| == width && !Resolved(c) ==> r == Error(Unsupported)
    ensures |c| == width && Resolved(c) ==> r.Success? && r.value == BitsOf(c)
    ensures r.Success? ==> |r.value| == width && forall k :: 0 <= k < width ==> r.value[k] == (c[width - 1 - k] == One)
  {
    if |c| != width then Error(Invalid) else ReadBits(c)
  }

  /** Reads the bits of a constant last to first, stopping at an X or Z. */
  function ReadBits(c: ConstBits): (r: Result<seq<bool>>)
    ensures !Resolved(c) ==> r == Error(Unsupported)
    ensures Resolved(c) ==> r == Success(BitsOf(c))
  {
    if c == [] then Success([]) else
    var last, init := c[|c| - 1], c[..|c| - 1];
    assert c == init + [last];
    assert Resolved(c) <==> Resolved(init) && Resolved([last]);
    assert BitsOf(c) == [last == One] + BitsOf(init);
    if last == X || last == Z then Error(Unsupported)
    else
      match ReadBits(init)
      case Error(e) => Error(e)
      case Success(bits) => Success([last == One] + bits)
  }

  /** The number a constant spells, most significant bit first. */
  function Written(c: ConstBits): nat {
    if c == [] then 0 else 2 * Written(c[..|c| - 1]) + if c[|c| - 1].One? then 1 else 0
  }

  /** The number of a bit vector, least significant bit first. */
  function Unsigned(bits: seq<bool>): nat {
    if bits == [] then 0 else (if bits[0] then 1 else 0) + 2 * Unsigned(bits[1..])
  }

  /** Reading a constant keeps the number it spells. */
  lemma {:induction false} AssignmentKeepsNumber(c: ConstBits, width: nat)
    requires ConstantAssignment(c, width).Success?
    ensures Unsigned(ConstantAssignment(c, width).value) == Written(c)
    decreases |c|
  {
    var bits := BitsOf(c);
    if c != [] {
      var init := c[..|c| - 1];
      assert bits[1..] == BitsOf(init);
      AssignmentKeepsNumber(init, |init|);
    }
  }

  lemma {:induction false} BitsOfInjective(a: ConstBits, b: ConstBits)
    requires Resolved(a) && Resolved(b) && BitsOf(a) == BitsOf(b)
    ensures a == b
  {
    assert |a| == |BitsOf(a)| && |b| == |BitsOf(b)|;
    forall i | 0 <= i < |a| ensures a[i] == b[i] {
      assert BitsOf(a)[|a| - 1 - i] == a[i].One? && BitsOf(b)[|a| - 1 - i] == b[i].One?;
    }
  }

  // ----- registers -----

  datatype Control = Control(value: nat, activeHigh: bool)
  datatype Reset = Reset(control: Control, resetValue: nat)

  /** Resets are listed in descending priority. */
  datatype Register = Register(d: nat, enable: Option<Control>, resets: seq<Reset>)

  predicate GoodControl(values: Values, c: Control) {
    c.value < |values| && |values[c.value]| == 1
  }

  predicate GoodReset(values: Values, r: Reset, width: nat) {
    GoodControl(values, r.control) && r.resetValue < |values| && |values[r.resetValue]| == width
  }

  predicate GoodRegister(values: Values, register: Register, width: nat) {
    && register.d < |values| && |values[register.d]| == width
    && (register.enable.Some? ==> GoodControl(values, register.enable.value))
    && (forall i :: 0 <= i < |register.resets| ==> GoodReset(values, register.resets[i], width))
  }

  function EvalBits(es: seq<Expr>, env: Boundary): (bits: seq<bool>)
    ensures |bits| == |es| && forall i :: 0 <= i < |es| ==> bits[i] == Eval(es[i], env)
  {
    seq(|es|, i requires 0 <= i < |es| => Eval(es[i], env))
  }

  predicate Active(values: Values, c: Control, env: Boundary)
    requires GoodControl(values, c)
  {
    Eval(values[c.value][0], env) == c.activeHigh
  }

  /** The successor as the Verilog writer states it: the first active reset
      wins, then an inactive enable holds the state, and otherwise data is taken. */
  function NextState(values: Values, register: Register, resets: seq<Reset>, held: seq<bool>,
                     env: Boundary): (next: seq<bool>)
    requires GoodRegister(values, register, |held|)
    requires forall i :: 0 <= i < |resets| ==> GoodReset(values, resets[i], |held|)
    ensures |next| == |held|
  {
    if resets != [] then
      assert GoodReset(values, resets[0], |held|);
      if Active(values, resets[0].control, env) then EvalBits(values[resets[0].resetValue], env)
      else NextState(values, register, resets[1..], held, env)
    else if register.enable.Some? && !Active(values, register.enable.value, env) then held
    else EvalBits(values[register.d], env)
  }

  function ControlE(values: Values, c: Control): Expr
    requires GoodControl(values, c)
  {
    if c.activeHigh then values[c.value][0] else NotE(values[c.value][0])
  }

  function SelectE(c: Expr, t: seq<Expr>, f: seq<Expr>): (es: seq<Expr>)
    requires |t| == |f|
    ensures |es| == |t|
  {
    seq(|t|, i requires 0 <= i < |t| => IteE(c, t[i], f[i]))
  }

  function HeldE(state: seq<nat>): (es: seq<Expr>)
    ensures |es| == |state|
  {
    seq(|state|, i requires 0 <= i < |state| => BitE(state[i]))
  }

  function UpdateE(values: Values, register: Register, state: seq<nat>): (es: seq<Expr>)
    requires GoodRegister(values, register, |state|)
    ensures |es| == |state|
  {
    if register.enable.Some? then SelectE(ControlE(values, register.enable.value), values[register.d], HeldE(state))
    else values[register.d]
  }

  /** What the encoder builds: resets folded in from the lowest priority up. */
  function NextE(values: Values, register: Register, resets: seq<Reset>, state: seq<nat>): (es: seq<Expr>)
    requires GoodRegister(values, register, |state|)
    requires forall i :: 0 <= i < |resets| ==> GoodReset(values, resets[i], |state|)
    ensures |es| == |state|
  {
    if resets == [] then UpdateE(values, register, state)
    else
      assert GoodReset(values, resets[0], |state|);
      SelectE(ControlE(values, resets[0].control), values[resets[0].resetValue],
          NextE(values, register, resets[1..], state))
  }

  lemma SelectMeaning(c: Expr, t: seq<Expr>, f: seq<Expr>, env: Boundary)
    requires |t| == |f|
    ensures EvalBits(SelectE(c, t, f), env) == if Eval(c, env) then EvalBits(t, env) else EvalBits(f, env)
  {
  }

  lemma HeldMeaning(state: seq<nat>, bits: seq<bool>, env: Boundary)
    requires |bits| == |state| && Distinct(state)
    ensures EvalBits(HeldE(state), Bound(env, state, bits)) == bits
  {
    forall i | 0 <= i < |state| ensures EvalBits(HeldE(state), Bound(env, state, bits))[i] == bits[i] {
      assert IndexOf(state, state[i]) == i;
    }
  }

  /** The reversed reset fold is the first-reset-wins chain. */
  lemma {:induction false} NextMeaning(values: Values, register: Register, resets: seq<Reset>, state: seq<nat>,
                                       bits: seq<bool>, env: Boundary)
    requires |bits| == |state| && Distinct(state) && GoodRegister(values, register, |state|)
    requires forall i :: 0 <= i < |resets| ==> GoodReset(values, resets[i], |state|)
    ensures EvalBits(NextE(values, register, resets, state), Bound(env, state, bits))
         == NextState(values, register, resets, bits, Bound(env, state, bits))
    decreases |resets|
  {
    var bound := Bound(env, state, bits);
    if resets == [] {
      HeldMeaning(state, bits, env);
      if register.enable.Some? {
        SelectMeaning(ControlE(values, register.enable.value), values[register.d], HeldE(state), bound);
      }
    } else {
      assert GoodReset(values, resets[0], |state|);
      NextMeaning(values, register, resets[1..], state, bits, env);
      SelectMeaning(ControlE(values, resets[0].control), values[resets[0].resetValue],
          NextE(values, register, resets[1..], state), bound);
    }
  }

  // ----- class codes -----

  /** Bit `k` of a class number. */
  predicate CodeBit(c: nat, k: nat) {
    if k == 0 then c % 2 == 1 else CodeBit(c / 2, k - 1)
  }

  /** Number of significant bits. */
  function BitLength(n: nat): nat {
    if n == 0 then 0 else 1 + BitLength(n / 2)
  }

  function CodeWidth(classCount: nat): nat
    requires classCount > 0
  {
    if BitLength(classCount - 1) < 1 then 1 else BitLength(classCount - 1)
  }

  function Power(n: nat): (p: nat)
    ensures p > 0
  {
    if n == 0 then 1 else 2 * Power(n - 1)
  }

  lemma {:induction false} BitLengthBounds(n: nat)
    ensures n < Power(BitLength(n)) && (n > 0 ==> BitLength(n) > 0 && Power(BitLength(n) - 1) <= n)
  {
    if n > 0 { BitLengthBounds(n / 2); }
  }

  /** The code is as narrow as class numbers below the count allow, but has at least one bit. */
  lemma CodeWidthIsLeast(classCount: nat)
    requires classCount > 0
    ensures classCount <= Power(CodeWidth(classCount))
    ensures CodeWidth(classCount) > 1 ==> Power(CodeWidth(classCount) - 1) < classCount
    ensures CodeWidth(classCount) >= 1
  {
    BitLengthBounds(classCount - 1);
  }

  lemma {:induction false} BitLengthMonotone(a: nat, b: nat)
    requires a <= b
    ensures BitLength(a) <= BitLength(b)
    decreases b
  {
    if a > 0 { BitLengthMonotone(a / 2, b / 2); }
  }

  /** Numbers that fit the width are determined by their bits. */
  lemma {:induction false} CodeInjective(a: nat, b: nat, width: nat)
    requires BitLength(a) <= width && BitLength(b) <= width
    requires forall k :: 0 <= k < width ==> CodeBit(a, k) == CodeBit(b, k)
    ensures a == b
    decreases width
  {
    if width > 0 {
      forall k | 0 <= k < width - 1 ensures CodeBit(a / 2, k) == CodeBit(b / 2, k) {
        assert CodeBit(a, k + 1) == CodeBit(b, k + 1);
      }
      CodeInjective(a / 2, b / 2, width - 1);
      assert CodeBit(a, 0) == CodeBit(b, 0);
    }
  }

  // ----- partition expressions -----

  /** True exactly when the value spells the given bits. */
  function MatchE(value: seq<Expr>, bits: seq<bool>): Expr
    requires |value| == |bits|
  {
    if value == [] then ConstE(true) else
    var n := |value| - 1;
    var last := if bits[n] then value[n] else NotE(value[n]);
    if n == 0 then last else AndE(MatchE(value[..n], bits[..n]), last)
  }

  lemma {:induction false} MatchMeaning(value: seq<Expr>, bits: seq<bool>, env: Boundary)
    requires |value| == |bits|
    ensures Eval(MatchE(value, bits), env) <==> EvalBits(value, env) == bits
    decreases |value|
  {
    if value != [] {
      var n := |value| - 1;
      MatchMeaning(value[..n], bits[..n], env);
      assert EvalBits(value, env) == EvalBits(value[..n], env) + [Eval(value[n], env)];
      assert bits == bits[..n] + [bits[n]];
      if n == 0 { assert EvalBits(value[..n], env) == bits[..n]; }
    }
  }

  predicate SameWidth(value: seq<Expr>, states: seq<seq<bool>>) {
    forall i :: 0 <= i < |states| ==> |states[i]| == |value|
  }

  /** Bit `k` of the class of the matching state, after `n` states. */
  function CodeE(value: seq<Expr>, states: seq<seq<bool>>, classes: seq<nat>, k: nat, n: nat): Expr
    requires SameWidth(value, states) && n <= |states| == |classes| && 0 < |states|
  {
    if n == 0 then ConstE(CodeBit(classes[0], k))
    else IteE(MatchE(value, states[n - 1]), ConstE(CodeBit(classes[n - 1], k)), CodeE(value, states, classes, k, n - 1))
  }

  function CodeBitsE(value: seq<Expr>, states: seq<seq<bool>>, classes: seq<nat>, width: nat, n: nat): (es: seq<Expr>)
    requires SameWidth(value, states) && n <= |states| == |classes| && 0 < |states|
    ensures |es| == width
  {
    seq(width, k requires 0 <= k < width => CodeE(value, states, classes, k, n))
  }

  function ValidE(value: seq<Expr>, states: seq<seq<bool>>, n: nat): Expr
    requires SameWidth(value, states) && 0 < n <= |states|
  {
    if n == 1 then MatchE(value, states[0]) else OrE(ValidE(value, states, n - 1), MatchE(value, states[n - 1]))
  }

  lemma {:induction false} ValidMeaning(value: seq<Expr>, states: seq<seq<bool>>, n: nat, env: Boundary)
    requires SameWidth(value, states) && 0 < n <= |states|
    ensures Eval(ValidE(value, states, n), env) <==> EvalBits(value, env) in states[..n]
    decreases n
  {
    MatchMeaning(value, states[n - 1], env);
    assert states[..n] == states[..n - 1] + [states[n - 1]];
    if n > 1 { ValidMeaning(value, states, n - 1, env); }
  }

  lemma {:induction false} CodeMeaning(value: seq<Expr>, states: seq<seq<bool>>, classes: seq<nat>, k: nat, n: nat,
                                       env: Boundary, i: nat)
    requires SameWidth(value, states) && i < n <= |states| == |classes| && Distinct(states)
    requires EvalBits(value, env) == states[i]
    ensures Eval(CodeE(value, states, classes, k, n), env) == CodeBit(classes[i], k)
    decreases n
  {
    MatchMeaning(value, states[n - 1], env);
    if i < n - 1 { CodeMeaning(value, states, classes, k, n - 1, env, i); }
  }
}
