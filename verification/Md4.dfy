/** MD4 (RFC 1320), as md4.go computes it, against the tables of the standard. */
module Md4 {
  import opened Basics

  type Word = bv32

  /** How far a word is rotated. */
  type Shift = bv6

  datatype State = State(a: Word, b: Word, c: Word, d: Word)

  const INITIAL := State(0x67452301, 0xefcdab89, 0x98badcfe, 0x10325476)

  function Rotl(x: Word, n: Shift): Word
    requires 0 < n < 32
  {
    (x << n) | (x >> (32 - n))
  }

  // ----- The steps of sections 3.4 and 4 of RFC 1320 -----

  datatype Letter = A | B | C | D
  datatype Round = One | Two | Three

  /** One operation of a table: [abcd k s] writes the register `target`, the others following it in order. */
  datatype Op = Op(round: Round, target: Letter, k: nat, s: Shift) {
    predicate Valid() { k < 16 && s in {3, 5, 7, 9, 11, 13, 15, 19} }
  }

  function F(x: Word, y: Word, z: Word): Word { (x & y) | (!x & z) }
  function G(x: Word, y: Word, z: Word): Word { (x & y) | (x & z) | (y & z) }
  function H(x: Word, y: Word, z: Word): Word { x ^ y ^ z }

  function Mix(round: Round, x: Word, y: Word, z: Word): Word {
    match round
    case One => F(x, y, z)
    case Two => G(x, y, z)
    case Three => H(x, y, z)
  }

  /** The constant each round adds. */
  function Added(round: Round): Word {
    match round
    case One => 0
    case Two => 0x5a827999
    case Three => 0x6ed9eba1
  }

  /** The register written, and the three that follow it cyclically. */
  function Turned(st: State, target: Letter): State {
    match target
    case A => st
    case B => State(st.b, st.c, st.d, st.a)
    case C => State(st.c, st.d, st.a, st.b)
    case D => State(st.d, st.a, st.b, st.c)
  }

  function Written(st: State, target: Letter, v: Word): State {
    match target
    case A => st.(a := v)
    case B => st.(b := v)
    case C => st.(c := v)
    case D => st.(d := v)
  }

  /** Addition of words, modulo 2^32. */
  function Add(x: Word, y: Word): Word { x + y }
  function Sub(x: Word, y: Word): Word { x - y }

  function Plus(a: Word, m: Word, w: Word, t: Word): Word { Add(Add(Add(a, m), w), t) }
  function Minus(a: Word, m: Word, w: Word, t: Word): Word { Sub(Sub(Sub(a, t), w), m) }

  /** a = (a + f(b,c,d) + X[k] + T) <<< s, for whichever register plays a. */
  function Step(op: Op, st: State, x: seq<Word>): State
    requires op.Valid() && |x| == 16
  {
    var t := Turned(st, op.target);
    Written(st, op.target, Rotl(Plus(t.a, Mix(op.round, t.b, t.c, t.d), x[op.k], Added(op.round)), op.s))
  }

  /** What undoes it: the other three registers are untouched, so the same mix is there to take away. */
  function Unstep(op: Op, st: State, x: seq<Word>): State
    requires op.Valid() && |x| == 16
  {
    var t := Turned(st, op.target);
    Written(st, op.target, Minus(Rotl(t.a, 32 - op.s), Mix(op.round, t.b, t.c, t.d), x[op.k], Added(op.round)))
  }

  ghost predicate AllValid(ops: seq<Op>) {
    forall i :: 0 <= i < |ops| ==> ops[i].Valid()
  }

  function Run(ops: seq<Op>, st: State, x: seq<Word>): State
    requires |x| == 16 && forall i :: 0 <= i < |ops| ==> ops[i].Valid()
  {
    if ops == [] then st else Step(ops[|ops| - 1], Run(ops[..|ops| - 1], st, x), x)
  }

  function Unrun(ops: seq<Op>, st: State, x: seq<Word>): State
    requires |x| == 16 && forall i :: 0 <= i < |ops| ==> ops[i].Valid()
  {
    if ops == [] then st else Unrun(ops[..|ops| - 1], Unstep(ops[|ops| - 1], st, x), x)
  }

  /** The table of section 3.4, row by row as the standard prints it. */
  const ROUND_ONE: seq<Op> := [
    Op(One, A, 0, 3), Op(One, D, 1, 7), Op(One, C, 2, 11), Op(One, B, 3, 19),
    Op(One, A, 4, 3), Op(One, D, 5, 7), Op(One, C, 6, 11), Op(One, B, 7, 19),
    Op(One, A, 8, 3), Op(One, D, 9, 7), Op(One, C, 10, 11), Op(One, B, 11, 19),
    Op(One, A, 12, 3), Op(One, D, 13, 7), Op(One, C, 14, 11), Op(One, B, 15, 19)]

  const ROUND_TWO: seq<Op> := [
    Op(Two, A, 0, 3), Op(Two, D, 4, 5), Op(Two, C, 8, 9), Op(Two, B, 12, 13),
    Op(Two, A, 1, 3), Op(Two, D, 5, 5), Op(Two, C, 9, 9), Op(Two, B, 13, 13),
    Op(Two, A, 2, 3), Op(Two, D, 6, 5), Op(Two, C, 10, 9), Op(Two, B, 14, 13),
    Op(Two, A, 3, 3), Op(Two, D, 7, 5), Op(Two, C, 11, 9), Op(Two, B, 15, 13)]

  const ROUND_THREE: seq<Op> := [
    Op(Three, A, 0, 3), Op(Three, D, 8, 9), Op(Three, C, 4, 11), Op(Three, B, 12, 15),
    Op(Three, A, 2, 3), Op(Three, D, 10, 9), Op(Three, C, 6, 11), Op(Three, B, 14, 15),
    Op(Three, A, 1, 3), Op(Three, D, 9, 9), Op(Three, C, 5, 11), Op(Three, B, 13, 15),
    Op(Three, A, 3, 3), Op(Three, D, 11, 9), Op(Three, C, 7, 11), Op(Three, B, 15, 15)]

  const TABLE: seq<Op> := ROUND_ONE + ROUND_TWO + ROUND_THREE

  lemma TableValid()
    ensures |ROUND_ONE| == 16 && |ROUND_TWO| == 16 && |ROUND_THREE| == 16 && |TABLE| == 48
    ensures AllValid(ROUND_ONE) && AllValid(ROUND_TWO) && AllValid(ROUND_THREE) && AllValid(TABLE)
  {
    ValidConcat(ROUND_ONE, ROUND_TWO);
    ValidConcat(ROUND_ONE + ROUND_TWO, ROUND_THREE);
  }

  lemma ValidConcat(p: seq<Op>, q: seq<Op>)
    requires AllValid(p) && AllValid(q)
    ensures AllValid(p + q)
  {}

  // ----- For a fixed block, the 48 steps permute the states -----

  lemma RotlBack(x: Word, n: Shift)
    requires n in {3, 5, 7, 9, 11, 13, 15, 19}
    ensures Rotl(Rotl(x, n), 32 - n) == x
    ensures Rotl(Rotl(x, 32 - n), n) == x
  {
    hide Rotl;
    RotlBack3(x);
    RotlBack5(x);
    RotlBack7(x);
    RotlBack9(x);
    RotlBack11(x);
    RotlBack13(x);
    RotlBack15(x);
    RotlBack19(x);
  }

  lemma RotlBack3(x: Word)
    ensures Rotl(Rotl(x, 3), 29) == x && Rotl(Rotl(x, 29), 3) == x
  {}

  lemma RotlBack5(x: Word)
    ensures Rotl(Rotl(x, 5), 27) == x && Rotl(Rotl(x, 27), 5) == x
  {}

  lemma RotlBack7(x: Word)
    ensures Rotl(Rotl(x, 7), 25) == x && Rotl(Rotl(x, 25), 7) == x
  {}

  lemma RotlBack9(x: Word)
    ensures Rotl(Rotl(x, 9), 23) == x && Rotl(Rotl(x, 23), 9) == x
  {}

  lemma RotlBack11(x: Word)
    ensures Rotl(Rotl(x, 11), 21) == x && Rotl(Rotl(x, 21), 11) == x
  {}

  lemma RotlBack13(x: Word)
    ensures Rotl(Rotl(x, 13), 19) == x && Rotl(Rotl(x, 19), 13) == x
  {}

  lemma RotlBack15(x: Word)
    ensures Rotl(Rotl(x, 15), 17) == x && Rotl(Rotl(x, 17), 15) == x
  {}

  lemma RotlBack19(x: Word)
    ensures Rotl(Rotl(x, 19), 13) == x && Rotl(Rotl(x, 13), 19) == x
  {}

  lemma Cancel(a: Word, m: Word)
    ensures Sub(Add(a, m), m) == a
    ensures Add(Sub(a, m), m) == a
  {
    SubAfter(a, m);
    AddAfter(a, m);
  }

  lemma SubAfter(a: Word, m: Word)
    ensures Sub(Add(a, m), m) == a
  {
    hide Sub;
    SubOfSum(a, m);
  }

  lemma SubOfSum(a: Word, m: Word)
    ensures Sub(a + m, m) == a
  {}

  lemma AddAfter(a: Word, m: Word)
    ensures Add(Sub(a, m), m) == a
  {
    hide Add;
    AddToDifference(a, m);
  }

  lemma AddToDifference(a: Word, m: Word)
    ensures Add(a - m, m) == a
  {}

  lemma PlusBack(a: Word, m: Word, w: Word, t: Word)
    ensures Minus(Plus(a, m, w, t), m, w, t) == a
    ensures Plus(Minus(a, m, w, t), m, w, t) == a
  {
    hide Add, Sub;
    Cancel(a, m);
    Cancel(Add(a, m), w);
    Cancel(Add(Add(a, m), w), t);
    Cancel(a, t);
    Cancel(Sub(a, t), w);
    Cancel(Sub(Sub(a, t), w), m);
  }

  /** Writing one register leaves the others, and writing back what was there changes nothing. */
  lemma WrittenTurned(st: State, target: Letter, v: Word, u: Word)
    ensures Turned(Written(st, target, v), target) == Turned(st, target).(a := v)
    ensures Written(Written(st, target, v), target, u) == Written(st, target, u)
    ensures Written(st, target, Turned(st, target).a) == st
  {}

  lemma UnstepStep(op: Op, st: State, x: seq<Word>)
    requires op.Valid() && |x| == 16
    ensures Unstep(op, Step(op, st, x), x) == st
    ensures Step(op, Unstep(op, st, x), x) == st
  {
    hide Rotl, Mix, Added, Plus, Minus, Turned, Written;
    var t := Turned(st, op.target);
    var m, w, k := Mix(op.round, t.b, t.c, t.d), x[op.k], Added(op.round);
    WrittenTurned(st, op.target, Rotl(Plus(t.a, m, w, k), op.s), t.a);
    WrittenTurned(st, op.target, Minus(Rotl(t.a, 32 - op.s), m, w, k), t.a);
    RotlBack(Plus(t.a, m, w, k), op.s);
    RotlBack(t.a, op.s);
    PlusBack(t.a, m, w, k);
    PlusBack(Rotl(t.a, 32 - op.s), m, w, k);
  }

  /** For a fixed block the operations are a bijection on states: they can be undone, and undo what undoes them. */
  lemma {:induction false} UnrunRun(ops: seq<Op>, st: State, x: seq<Word>)
    requires |x| == 16 && AllValid(ops)
    ensures Unrun(ops, Run(ops, st, x), x) == st
    ensures Run(ops, Unrun(ops, st, x), x) == st
  {
    hide Step, Unstep;
    if ops != [] {
      var init, last := ops[..|ops| - 1], ops[|ops| - 1];
      UnrunRun(init, st, x);
      UnrunRun(init, Unstep(last, st, x), x);
      UnstepStep(last, Run(init, st, x), x);
      UnstepStep(last, st, x);
    }
  }

  lemma RoundsAreBijective(x: seq<Word>, p: State, q: State)
    requires |x| == 16
    ensures AllValid(TABLE)
    ensures Run(TABLE, p, x) == Run(TABLE, q, x) <==> p == q
    ensures Run(TABLE, Unrun(TABLE, p, x), x) == p
  {
    hide TABLE;
    TableValid();
    UnrunRun(TABLE, p, x);
    UnrunRun(TABLE, q, x);
  }

  // ----- Each round reads each word of the block exactly once -----

  /** The order 0, 2, 1, 3 of the third round, which is its own inverse. */
  function Swapped(i: nat): nat {
    if i == 1 then 2 else if i == 2 then 1 else i
  }

  /** The word that operation `r` of row `q` reads. */
  function WordAt(round: Round, q: nat, r: nat): nat {
    match round
    case One => 4 * q + r
    case Two => q + 4 * r
    case Three => Swapped(q) + 4 * Swapped(r)
  }

  lemma RowReads(round: Round, q: nat, r: nat)
    requires q < 4 && r < 4
    ensures |RoundOps(round)| == 16 && RoundOps(round)[4 * q + r].k == WordAt(round, q, r)
  {
    hide ROUND_ONE, ROUND_TWO, ROUND_THREE;
    TableValid();
    Rows(q);
    assert r == 0 || r == 1 || r == 2 || r == 3;
  }

  ghost predicate IsRead(round: Round, k: nat) {
    exists i: nat :: i < |RoundOps(round)| && RoundOps(round)[i].k == k
  }

  lemma EachWordRead(round: Round, k: nat)
    requires k < 16
    ensures IsRead(round, k)
  {
    hide ROUND_ONE, ROUND_TWO, ROUND_THREE, RoundOps;
    var q, r := if round.One? then k / 4 else if round.Two? then k % 4 else Swapped(k % 4),
                if round.One? then k % 4 else if round.Two? then k / 4 else Swapped(k / 4);
    RowReads(round, q, r);
    assert RoundOps(round)[4 * q + r].k == k;
  }

  /** Sixteen operations a round, reading each of the sixteen words, no two the same one. */
  lemma EachWordOnce(round: Round)
    ensures |RoundOps(round)| == 16
    ensures forall k: nat :: k < 16 ==> IsRead(round, k)
    ensures forall i: nat, j: nat :: i < j < 16 ==> RoundOps(round)[i].k != RoundOps(round)[j].k
  {
    hide ROUND_ONE, ROUND_TWO, ROUND_THREE, RoundOps, IsRead;
    RowReads(round, 0, 0);
    forall k: nat | k < 16 ensures IsRead(round, k) {
      EachWordRead(round, k);
    }
    forall i: nat, j: nat | i < j < 16 ensures RoundOps(round)[i].k != RoundOps(round)[j].k {
      RowReads(round, i / 4, i % 4);
      RowReads(round, j / 4, j % 4);
    }
  }

  function RoundOps(round: Round): seq<Op> {
    match round
    case One => ROUND_ONE
    case Two => ROUND_TWO
    case Three => ROUND_THREE
  }

  // ----- The block loop -----

  lemma RunSnoc(ops: seq<Op>, n: nat, st: State, x: seq<Word>)
    requires n < |ops| && |x| == 16 && AllValid(ops)
    ensures Run(ops[..n + 1], st, x) == Step(ops[n], Run(ops[..n], st, x), x)
  {
    assert ops[..n + 1][..n] == ops[..n];
  }

  lemma {:induction false} RunConcat(p: seq<Op>, q: seq<Op>, st: State, x: seq<Word>)
    requires |x| == 16 && AllValid(p) && AllValid(q)
    ensures AllValid(p + q) && Run(p + q, st, x) == Run(q, Run(p, st, x), x)
  {
    hide Step;
    if q == [] {
      assert p + q == p;
    } else {
      RunConcat(p, q[..|q| - 1], st, x);
      assert (p + q)[..|p + q| - 1] == p + q[..|q| - 1];
    }
  }

  function Round1(a: Word, b: Word, c: Word, d: Word, w: Word, s: Shift): Word
    requires 0 < s < 32
  {
    Rotl(Add(Add(a, (b & c) | (!b & d)), w), s)
  }

  function Round2(a: Word, b: Word, c: Word, d: Word, w: Word, s: Shift): Word
    requires 0 < s < 32
  {
    Rotl(Add(Add(Add(a, (b & c) | (b & d) | (c & d)), w), 0x5a827999), s)
  }

  function Round3(a: Word, b: Word, c: Word, d: Word, w: Word, s: Shift): Word
    requires 0 < s < 32
  {
    Rotl(Add(Add(Add(a, b ^ c ^ d), w), 0x6ed9eba1), s)
  }

  function Rounded(round: Round, a: Word, b: Word, c: Word, d: Word, w: Word, s: Shift): Word
    requires 0 < s < 32
  {
    match round
    case One => Round1(a, b, c, d, w, s)
    case Two => Round2(a, b, c, d, w, s)
    case Three => Round3(a, b, c, d, w, s)
  }

  lemma Round1Is(a: Word, b: Word, c: Word, d: Word, w: Word, s: Shift)
    requires 0 < s < 32
    ensures Round1(a, b, c, d, w, s) == Rotl(Plus(a, Mix(One, b, c, d), w, 0), s)
  {
    hide Rotl, Add;
    AddNothing(Add(Add(a, Mix(One, b, c, d)), w));
  }

  lemma Round2Is(a: Word, b: Word, c: Word, d: Word, w: Word, s: Shift)
    requires 0 < s < 32
    ensures Round2(a, b, c, d, w, s) == Rotl(Plus(a, Mix(Two, b, c, d), w, 0x5a827999), s)
  {
    hide Rotl, Add;
  }

  lemma Round3Is(a: Word, b: Word, c: Word, d: Word, w: Word, s: Shift)
    requires 0 < s < 32
    ensures Round3(a, b, c, d, w, s) == Rotl(Plus(a, Mix(Three, b, c, d), w, 0x6ed9eba1), s)
  {
    hide Rotl, Add;
  }

  lemma RoundedIs(round: Round, a: Word, b: Word, c: Word, d: Word, w: Word, s: Shift)
    requires 0 < s < 32
    ensures Rounded(round, a, b, c, d, w, s) == Rotl(Plus(a, Mix(round, b, c, d), w, Added(round)), s)
  {
    hide Rotl, Plus, Mix, Round1, Round2, Round3;
    Round1Is(a, b, c, d, w, s);
    Round2Is(a, b, c, d, w, s);
    Round3Is(a, b, c, d, w, s);
  }

  lemma AddNothing(x: Word)
    ensures Add(x, 0) == x
  {}

  /** One closure call is one operation of the table. */
  lemma CallIsStep(op: Op, st: State, x: seq<Word>)
    requires op.Valid() && |x| == 16
    ensures var t := Turned(st, op.target);
            Step(op, st, x) == Written(st, op.target, Rounded(op.round, t.a, t.b, t.c, t.d, x[op.k], op.s))
  {
    hide Rotl, Rounded, Plus, Mix, Added;
    var t := Turned(st, op.target);
    RoundedIs(op.round, t.a, t.b, t.c, t.d, x[op.k], op.s);
  }

  /** The four operations of one turn of a round's loop. */
  ghost predicate IsRow(
      ops: seq<Op>, n: nat, round: Round, ks: (nat, nat, nat, nat), ss: (Shift, Shift, Shift, Shift)) {
    && n + 4 <= |ops|
    && ops[n] == Op(round, A, ks.0, ss.0) && ops[n + 1] == Op(round, D, ks.1, ss.1)
    && ops[n + 2] == Op(round, C, ks.2, ss.2) && ops[n + 3] == Op(round, B, ks.3, ss.3)
  }

  /** A state after four calls of a round's closure, for a, d, c and b in turn. */
  function Row(round: Round, p: State, x: seq<Word>, ks: (nat, nat, nat, nat), ss: (Shift, Shift, Shift, Shift)): State
    requires |x| == 16 && ks.0 < 16 && ks.1 < 16 && ks.2 < 16 && ks.3 < 16
    requires 0 < ss.0 < 32 && 0 < ss.1 < 32 && 0 < ss.2 < 32 && 0 < ss.3 < 32
  {
    var a := Rounded(round, p.a, p.b, p.c, p.d, x[ks.0], ss.0);
    var d := Rounded(round, p.d, a, p.b, p.c, x[ks.1], ss.1);
    var c := Rounded(round, p.c, d, a, p.b, x[ks.2], ss.2);
    var b := Rounded(round, p.b, c, d, a, x[ks.3], ss.3);
    State(a, b, c, d)
  }

  lemma RunCall(ops: seq<Op>, n: nat, st: State, x: seq<Word>)
    requires |x| == 16 && AllValid(ops) && n < |ops|
    ensures var p := Run(ops[..n], st, x);
            var t := Turned(p, ops[n].target);
            Run(ops[..n + 1], st, x) ==
            Written(p, ops[n].target, Rounded(ops[n].round, t.a, t.b, t.c, t.d, x[ops[n].k], ops[n].s))
  {
    hide Step, Rounded, Run, Turned, Written;
    RunSnoc(ops, n, st, x);
    CallIsStep(ops[n], Run(ops[..n], st, x), x);
  }

  lemma RunRow(
      ops: seq<Op>, n: nat, round: Round, ks: (nat, nat, nat, nat), ss: (Shift, Shift, Shift, Shift), st: State,
      x: seq<Word>)
    requires |x| == 16 && AllValid(ops) && IsRow(ops, n, round, ks, ss)
    requires ks.0 < 16 && ks.1 < 16 && ks.2 < 16 && ks.3 < 16
    requires 0 < ss.0 < 32 && 0 < ss.1 < 32 && 0 < ss.2 < 32 && 0 < ss.3 < 32
    ensures Run(ops[..n + 4], st, x) == Row(round, Run(ops[..n], st, x), x, ks, ss)
  {
    hide Step, Rounded, Run;
    RunCall(ops, n, st, x);
    RunCall(ops, n + 1, st, x);
    RunCall(ops, n + 2, st, x);
    RunCall(ops, n + 3, st, x);
  }

  lemma Rows(i: nat)
    requires i < 4
    ensures IsRow(ROUND_ONE, 4 * i, One, (4 * i, 4 * i + 1, 4 * i + 2, 4 * i + 3), (3, 7, 11, 19))
    ensures IsRow(ROUND_TWO, 4 * i, Two, (i, i + 4, i + 8, i + 12), (3, 5, 9, 13))
    ensures var k := Swapped(i);
            IsRow(ROUND_THREE, 4 * i, Three, (k, k + 8, k + 4, k + 12), (3, 9, 11, 15))
  {}

  function AddStates(p: State, q: State): State {
    State(Add(p.a, q.a), Add(p.b, q.b), Add(p.c, q.c), Add(p.d, q.d))
  }

  /** One block: the 48 operations of the table, then the addition of what went in. */
  function Absorb(st: State, x: seq<Word>): State
    requires |x| == 16 && AllValid(TABLE)
  {
    AddStates(Run(TABLE, st, x), st)
  }

  method FirstRound(st: State, x: seq<Word>) returns (out: State)
    requires |x| == 16
    ensures AllValid(ROUND_ONE) && out == Run(ROUND_ONE, st, x)
  {
    hide Run, Round1;
    TableValid();
    var a, b, c, d := st.a, st.b, st.c, st.d;
    NothingRun(ROUND_ONE, st, x);
    for i := 0 to 4
      invariant State(a, b, c, d) == Run(ROUND_ONE[..4 * i], st, x)
    {
      Rows(i);
      RunRow(ROUND_ONE, 4 * i, One, (4 * i, 4 * i + 1, 4 * i + 2, 4 * i + 3), (3, 7, 11, 19), st, x);
      var k := i * 4;
      a := Round1(a, b, c, d, x[k + 0], 3);
      d := Round1(d, a, b, c, x[k + 1], 7);
      c := Round1(c, d, a, b, x[k + 2], 11);
      b := Round1(b, c, d, a, x[k + 3], 19);
    }
    assert ROUND_ONE[..16] == ROUND_ONE;
    return State(a, b, c, d);
  }

  method SecondRound(st: State, x: seq<Word>) returns (out: State)
    requires |x| == 16
    ensures AllValid(ROUND_TWO) && out == Run(ROUND_TWO, st, x)
  {
    hide Run, Round2;
    TableValid();
    var a, b, c, d := st.a, st.b, st.c, st.d;
    NothingRun(ROUND_TWO, st, x);
    for i := 0 to 4
      invariant State(a, b, c, d) == Run(ROUND_TWO[..4 * i], st, x)
    {
      Rows(i);
      RunRow(ROUND_TWO, 4 * i, Two, (i, i + 4, i + 8, i + 12), (3, 5, 9, 13), st, x);
      a := Round2(a, b, c, d, x[i + 0], 3);
      d := Round2(d, a, b, c, x[i + 4], 5);
      c := Round2(c, d, a, b, x[i + 8], 9);
      b := Round2(b, c, d, a, x[i + 12], 13);
    }
    assert ROUND_TWO[..16] == ROUND_TWO;
    return State(a, b, c, d);
  }

  method ThirdRound(st: State, x: seq<Word>) returns (out: State)
    requires |x| == 16
    ensures AllValid(ROUND_THREE) && out == Run(ROUND_THREE, st, x)
  {
    hide Run, Round3;
    TableValid();
    var a, b, c, d := st.a, st.b, st.c, st.d;
    NothingRun(ROUND_THREE, st, x);
    var order := [0, 2, 1, 3];
    for j := 0 to |order|
      invariant State(a, b, c, d) == Run(ROUND_THREE[..4 * j], st, x)
    {
      var i := order[j];
      Rows(j);
      RunRow(ROUND_THREE, 4 * j, Three, (i, i + 8, i + 4, i + 12), (3, 9, 11, 15), st, x);
      a := Round3(a, b, c, d, x[i + 0], 3);
      d := Round3(d, a, b, c, x[i + 8], 9);
      c := Round3(c, d, a, b, x[i + 4], 11);
      b := Round3(b, c, d, a, x[i + 12], 15);
    }
    assert ROUND_THREE[..16] == ROUND_THREE;
    return State(a, b, c, d);
  }

  method Block(st: State, x: seq<Word>) returns (out: State)
    requires |x| == 16
    ensures AllValid(TABLE) && out == Absorb(st, x)
  {
    hide Run, AddStates;
    TableValid();
    out := FirstRound(st, x);
    out := SecondRound(out, x);
    out := ThirdRound(out, x);
    RunConcat(ROUND_ONE, ROUND_TWO, st, x);
    RunConcat(ROUND_ONE + ROUND_TWO, ROUND_THREE, st, x);
    return AddStates(out, st);
  }

  lemma NothingRun(ops: seq<Op>, st: State, x: seq<Word>)
    requires |x| == 16 && AllValid(ops)
    ensures Run(ops[..0], st, x) == st
  {}

  // ----- Padding (sections 3.1 and 3.2 of RFC 1320) -----

  /** A number's low `n` bytes, the least significant first. */
  function LittleEndian(v: nat, n: nat): (bs: seq<Byte>)
    ensures |bs| == n
  {
    if n == 0 then [] else [v % 256] + LittleEndian(v / 256, n - 1)
  }

  function Limit(n: nat): nat {
    if n == 0 then 1 else 256 * Limit(n - 1)
  }

  lemma {:induction false} LittleEndianInjective(v: nat, w: nat, n: nat)
    requires v < Limit(n) && w < Limit(n) && LittleEndian(v, n) == LittleEndian(w, n)
    ensures v == w
  {
    if n > 0 {
      assert LittleEndian(v, n)[0] == v % 256 && LittleEndian(w, n)[0] == w % 256;
      assert LittleEndian(v, n)[1..] == LittleEndian(v / 256, n - 1) &&
          LittleEndian(w, n)[1..] == LittleEndian(w / 256, n - 1);
      LittleEndianInjective(v / 256, w / 256, n - 1);
    }
  }

  lemma Limits()
    ensures Limit(4) == 0x1_0000_0000 && Limit(8) == 0x1_0000_0000_0000_0000
  {
    assert Limit(2) == 0x1_0000;
    assert Limit(4) == 0x1_0000_0000;
    assert Limit(6) == 0x1_0000_0000_0000;
  }

  function Zeros(n: nat): (z: seq<Byte>)
    ensures |z| == n && forall i :: 0 <= i < n ==> z[i] == 0
  {
    seq(n, _ => 0)
  }

  /** How many zero bytes bring n + 1 bytes to 56 modulo 64. */
  function ZeroCount(n: nat): nat {
    (55 - n) % 64
  }

  /** The length in bits as a uint64. */
  function BitLength(n: nat): nat {
    n * 8 % 0x1_0000_0000_0000_0000
  }

  function Padded(data: seq<Byte>): seq<Byte> {
    data + [0x80] + Zeros(ZeroCount(|data|)) + LittleEndian(BitLength(|data|), 8)
  }

  lemma PaddedLength(n: nat) returns (blocks: nat)
    ensures n + 9 + ZeroCount(n) == 64 * blocks
  {
    var q := (55 - n) / 64;
    assert 55 - n == 64 * q + ZeroCount(n);
    blocks := 1 - q;
  }

  /** The padding ends on a block, fits the 72 bytes set aside for it, and never takes a block more than it must. */
  lemma PaddingBound(data: seq<Byte>) returns (blocks: nat)
    ensures |Padded(data)| == 64 * blocks
    ensures |data| + 9 <= |Padded(data)| <= |data| + 72
    ensures forall fewer: nat :: fewer < blocks ==> 64 * fewer < |data| + 9
  {
    hide Padded, ZeroCount;
    blocks := PaddedLength(|data|);
    LengthPadded(data);
  }

  lemma LengthPadded(data: seq<Byte>)
    ensures |Padded(data)| == |data| + 9 + ZeroCount(|data|) && ZeroCount(|data|) < 64
  {}

  /** How many bytes it takes for the count of bits to come round. */
  const WRAP: nat := 0x2000_0000_0000_0000

  /** At 2^61 bytes the count wraps: only the last 61 bits of a length are written down. */
  lemma BitLengthWraps(m: nat, n: nat)
    ensures BitLength(m) == BitLength(n) <==> m % WRAP == n % WRAP
  {}

  function Power(n: nat): nat {
    if n == 0 then 1 else 256 * Power(n - 1)
  }

  /** Byte `i` of a number written low byte first: the number shifted down by so many bytes. */
  lemma {:induction false} LittleEndianAt(v: nat, n: nat, i: nat)
    requires i < n
    ensures Power(i) > 0 && LittleEndian(v, n)[i] == v / Power(i) % 256
  {
    PowerPositive(i);
    if i > 0 {
      LittleEndianAt(v / 256, n - 1, i - 1);
      DivTwice(v, 256, Power(i - 1));
    }
  }

  lemma {:induction false} PowerPositive(n: nat)
    ensures Power(n) > 0
  {
    if n > 0 {
      PowerPositive(n - 1);
    }
  }

  lemma DivTwice(v: nat, a: nat, b: nat)
    requires a > 0 && b > 0
    ensures a * b > 0 && v / a / b == v / (a * b)
  {
    var q := v / a;
    DivParts(v, a, b, q, v % a, q / b, q % b);
  }

  lemma DivParts(v: nat, a: nat, b: nat, q: nat, s: nat, p: nat, t: nat)
    requires v == a * q + s && q == b * p + t && s < a && t < b
    ensures a * b > 0 && v / (a * b) == p
  {
    Product(a, b, t, s);
    Distributed(a, b, p, t);
    QuotientIs(v, a * b, p, a * t + s);
  }

  lemma Distributed(a: nat, b: nat, p: nat, t: nat)
    ensures a * (b * p + t) == a * b * p + a * t
  {}

  lemma Product(a: nat, b: nat, t: nat, s: nat)
    requires t < b && s < a
    ensures a * t + s < a * b
  {
    assert a * (t + 1) <= a * b;
  }

  lemma Multiple(d: nat, n: int)
    ensures n >= 1 ==> d * n >= d
    ensures n <= -1 ==> d * n + d <= 0
  {
    if n >= 1 {
      assert d * n == d * (n - 1) + d;
    }
    if n <= -1 {
      assert d * n == d * (n + 1) - d;
    }
  }

  lemma QuotientIs(v: nat, d: nat, p: nat, rest: nat)
    requires d > 0 && v == d * p + rest && rest < d
    ensures v / d == p
  {
    var k := v / d;
    assert v == d * k + v % d;
    Multiple(d, p - k);
    assert d * (p - k) == d * p - d * k;
  }

  lemma CountWritten(data: seq<Byte>)
    ensures |Padded(data)| >= 8
    ensures Padded(data)[|Padded(data)| - 8..] == LittleEndian(BitLength(|data|), 8)
  {
    hide LittleEndian;
  }

  /** Where the counts written agree, the lengths agree up to the wrap. */
  lemma SameCount(p: seq<Byte>, q: seq<Byte>)
    requires LittleEndian(BitLength(|p|), 8) == LittleEndian(BitLength(|q|), 8)
    ensures |p| % WRAP == |q| % WRAP
  {
    hide LittleEndian, Limit;
    Limits();
    LittleEndianInjective(BitLength(|p|), BitLength(|q|), 8);
    BitLengthWraps(|p|, |q|);
  }

  lemma CongruentZeros(m: nat, n: nat)
    requires m % WRAP == n % WRAP
    ensures ZeroCount(m) == ZeroCount(n)
  {
    var a, b := m / WRAP, n / WRAP;
    assert 55 - m == 55 - n + 64 * (0x80_0000_0000_0000 * (b - a));
    ModShift(55 - n, 0x80_0000_0000_0000 * (b - a));
  }

  lemma ModShift(x: int, k: int)
    ensures (x + 64 * k) % 64 == x % 64
  {}

  /** One padded message ends another exactly when the message ends the other and what comes before it is a whole
      number of wraps. */
  lemma PaddingSuffix(z: seq<Byte>, p: seq<Byte>, q: seq<Byte>)
    ensures Padded(q) == z + Padded(p) <==> q == z + p && |z| % WRAP == 0
  {
    hide LittleEndian, BitLength, ZeroCount;
    if Padded(q) == z + Padded(p) {
      SuffixIsPadded(z, p, q);
    }
    if q == z + p && |z| % WRAP == 0 {
      Congruent(|z|, |p|);
      CongruentZeros(|q|, |p|);
      BitLengthWraps(|q|, |p|);
      var tail := [0x80] + Zeros(ZeroCount(|p|)) + LittleEndian(BitLength(|p|), 8);
      assert Padded(p) == p + tail && Padded(q) == q + tail;
      Regroup(z, p, tail);
    }
  }

  lemma Congruent(z: nat, p: nat)
    ensures (z + p) % WRAP == p % WRAP <==> z % WRAP == 0
  {}

  lemma SuffixIsPadded(z: seq<Byte>, p: seq<Byte>, q: seq<Byte>)
    requires Padded(q) == z + Padded(p)
    ensures q == z + p && |z| % WRAP == 0
  {
    hide LittleEndian, BitLength, ZeroCount;
    var n := |Padded(p)|;
    CountWritten(p);
    CountWritten(q);
    assert Padded(q)[|z| + n - 8..] == Padded(p)[n - 8..];
    SameCount(p, q);
    CongruentZeros(|p|, |q|);
    LengthPadded(p);
    LengthPadded(q);
    assert |q| == |z| + |p|;
    Congruent(|z|, |p|);
    assert q == Padded(q)[..|q|] && p == Padded(p)[..|p|];
    assert (z + Padded(p))[..|z| + |p|] == z + Padded(p)[..|p|];
  }

  /** Messages are told apart by their padded forms, at any length. */
  lemma PaddingInjective(p: seq<Byte>, q: seq<Byte>)
    ensures Padded(p) == Padded(q) <==> p == q
  {
    hide Padded;
    PaddingSuffix([], q, p);
    assert [] + Padded(q) == Padded(q) && [] + q == q;
  }

  /** What the count is written for: below 2^61 bytes no padded message ends another. */
  lemma PaddingSuffixFree(z: seq<Byte>, p: seq<Byte>, q: seq<Byte>)
    requires Padded(q) == z + Padded(p) && |q| < WRAP
    ensures z == [] && p == q
  {
    hide Padded;
    PaddingSuffix(z, p, q);
    assert [] + p == p;
  }

  /** At 2^61 bytes it fails: the padded empty message ends that of 2^61 zero bytes. */
  lemma SuffixAtWrap()
    ensures var q := Zeros(WRAP); q != [] && Padded(q) == q + Padded([])
  {
    hide Padded, Zeros;
    var q := Zeros(WRAP);
    PaddingSuffix(q, [], q);
    assert q + [] == q;
  }

  method Pad(data: seq<Byte>) returns (padded: seq<Byte>)
    ensures padded == Padded(data)
  {
    var n := |data|;
    padded := data + [0x80];
    ghost var zeros := 0;
    while |padded| % 64 != 56
      invariant padded == data + [0x80] + Zeros(zeros) && zeros <= ZeroCount(n)
      decreases ZeroCount(n) - zeros
    {
      padded := padded + [0];
      zeros := zeros + 1;
      assert Zeros(zeros) == Zeros(zeros - 1) + [0];
    }
    padded := padded + LittleEndian(BitLength(n), 8);
  }

  // ----- The whole digest -----

  function LoadWord(bs: seq<Byte>, at: nat): Word
    requires at + 4 <= |bs|
  {
    var low, high := bs[at] as int + 0x100 * (bs[at + 1] as int), bs[at + 2] as int + 0x100 * (bs[at + 3] as int);
    (low + 0x1_0000 * high) as bv32
  }

  lemma NumberBack(v: int)
    requires 0 <= v < 0x1_0000_0000
    ensures (v as bv32) as int == v
  {
    assert v % 0x1_0000_0000 == v;
  }

  lemma WordFits(bs: seq<Byte>, at: nat)
    requires at + 4 <= |bs|
    ensures LoadWord(bs, at) as int ==
            bs[at] as int + 0x100 * bs[at + 1] as int + 0x1_0000 * bs[at + 2] as int + 0x100_0000 * bs[at + 3] as int
  {
    var low, high := bs[at] as int + 0x100 * (bs[at + 1] as int), bs[at + 2] as int + 0x100 * (bs[at + 3] as int);
    var v := low + 0x1_0000 * high;
    assert 0 <= v < 0x1_0000_0000;
    NumberBack(v);
  }

  /** The word read is the one whose bytes, the lowest first, are the four there. */
  lemma LoadWordIs(bs: seq<Byte>, at: nat)
    requires at + 4 <= |bs|
    ensures Bytes(LoadWord(bs, at)) == bs[at..at + 4]
  {
    hide LoadWord;
    WordFits(bs, at);
    FourBytes(LoadWord(bs, at) as int, bs[at], bs[at + 1], bs[at + 2], bs[at + 3]);
  }

  lemma FourBytes(v: nat, p: Byte, q: Byte, r: Byte, s: Byte)
    requires v == p as int + 0x100 * q as int + 0x1_0000 * r as int + 0x100_0000 * s as int
    ensures LittleEndian(v, 4) == [p, q, r, s]
  {
    assert v % 256 == p && v / 256 == q as int + 0x100 * r as int + 0x1_0000 * s as int;
    assert v / 256 % 256 == q && v / 256 / 256 == r as int + 0x100 * s as int;
    assert v / 256 / 256 % 256 == r && v / 256 / 256 / 256 == s as int;
    assert LittleEndian(s as int, 1) == [s];
    assert LittleEndian(v / 256 / 256, 2) == [r, s];
    assert LittleEndian(v / 256, 3) == [q, r, s];
  }

  /** A word written is the word read. */
  lemma LoadBytes(x: Word)
    ensures LoadWord(Bytes(x), 0) == x
  {
    hide LoadWord, Bytes;
    LoadWordIs(Bytes(x), 0);
    assert Bytes(x)[0..4] == Bytes(x);
    BytesInjective(LoadWord(Bytes(x), 0), x);
  }

  /** The initial state, as section 3.3 of RFC 1320 prints it: low byte first. */
  lemma InitialIs()
    ensures Digest(INITIAL) == [0x01, 0x23, 0x45, 0x67, 0x89, 0xab, 0xcd, 0xef,
                                0xfe, 0xdc, 0xba, 0x98, 0x76, 0x54, 0x32, 0x10]
  {
    hide LittleEndian;
    FourBytes(0x67452301, 0x01, 0x23, 0x45, 0x67);
    FourBytes(0xefcdab89, 0x89, 0xab, 0xcd, 0xef);
    FourBytes(0x98badcfe, 0xfe, 0xdc, 0xba, 0x98);
    FourBytes(0x10325476, 0x76, 0x54, 0x32, 0x10);
    assert INITIAL.a as int == 0x67452301 && INITIAL.b as int == 0xefcdab89;
    assert INITIAL.c as int == 0x98badcfe && INITIAL.d as int == 0x10325476;
  }

  function LoadBlock(bs: seq<Byte>, at: nat): (x: seq<Word>)
    requires at + 64 <= |bs|
    ensures |x| == 16
  {
    seq(16, i requires 0 <= i < 16 => LoadWord(bs, at + 4 * i))
  }

  /** The state after the first `n` blocks. */
  function After(padded: seq<Byte>, n: nat): State
    requires 64 * n <= |padded|
  {
    if n == 0 then INITIAL else
      TableValid();
      Absorb(After(padded, n - 1), LoadBlock(padded, 64 * (n - 1)))
  }

  function Bytes(x: Word): (bs: seq<Byte>)
    ensures |bs| == 4
  {
    LittleEndian(x as int, 4)
  }

  function Digest(st: State): (bs: seq<Byte>)
    ensures |bs| == 16
  {
    Bytes(st.a) + Bytes(st.b) + Bytes(st.c) + Bytes(st.d)
  }

  function Md4Of(data: seq<Byte>): seq<Byte> {
    Digest(After(Padded(data), |Padded(data)| / 64))
  }

  lemma BitsBack(x: Word)
    ensures (x as int) as bv32 == x
  {}

  lemma WordRange(x: Word)
    ensures 0 <= x as int < 0x1_0000_0000
  {}

  lemma SameNumber(v: nat, w: nat)
    requires v < 0x1_0000_0000 && w < 0x1_0000_0000 && LittleEndian(v, 4) == LittleEndian(w, 4)
    ensures v == w
  {
    hide LittleEndian, Limit;
    Limits();
    LittleEndianInjective(v, w, 4);
  }

  lemma BytesInjective(x: Word, y: Word)
    requires Bytes(x) == Bytes(y)
    ensures x == y
  {
    hide LittleEndian;
    WordRange(x);
    WordRange(y);
    SameNumber(x as int, y as int);
    BitsBack(x);
    BitsBack(y);
  }

  /** The sixteen bytes written are the whole state: no two final states share a digest. */
  lemma DigestInjective(p: State, q: State)
    ensures Digest(p) == Digest(q) <==> p == q
  {
    hide Bytes;
    if Digest(p) == Digest(q) {
      FourParts(Bytes(p.a), Bytes(p.b), Bytes(p.c), Bytes(p.d), Bytes(q.a), Bytes(q.b), Bytes(q.c), Bytes(q.d));
      BytesInjective(p.a, q.a);
      BytesInjective(p.b, q.b);
      BytesInjective(p.c, q.c);
      BytesInjective(p.d, q.d);
    }
  }

  lemma TwoParts<T>(a: seq<T>, b: seq<T>, x: seq<T>, y: seq<T>)
    requires a + b == x + y && |a| == |x|
    ensures a == x && b == y
  {
    assert a == (a + b)[..|a|] && x == (x + y)[..|a|];
    assert b == (a + b)[|a|..] && y == (x + y)[|a|..];
  }

  lemma FourParts<T>(a: seq<T>, b: seq<T>, c: seq<T>, d: seq<T>, x: seq<T>, y: seq<T>, z: seq<T>, w: seq<T>)
    requires a + b + c + d == x + y + z + w
    requires |a| == |x| && |b| == |y| && |c| == |z|
    ensures a == x && b == y && c == z && d == w
  {
    TwoParts(a + b + c, d, x + y + z, w);
    TwoParts(a + b, c, x + y, z);
    TwoParts(a, b, x, y);
  }

  method Md4Sum(data: seq<Byte>) returns (out: seq<Byte>)
    ensures out == Md4Of(data) && |out| == 16
  {
    hide Absorb, Padded, LoadWord, Bytes;
    var padded := Pad(data);
    ghost var blocks := PaddingBound(data);
    var st := INITIAL;
    var x := new Word[16];
    for n := 0 to |padded| / 64
      invariant st == After(padded, n)
    {
      var off := 64 * n;
      for i := 0 to 16
        invariant forall j :: 0 <= j < i ==> x[j] == LoadWord(padded, off + 4 * j)
      {
        x[i] := LoadWord(padded, off + i * 4);
      }
      assert x[..] == LoadBlock(padded, off);
      st := Block(st, x[..]);
    }
    out := Digest(st);
  }
}
