/** The TRY/CATCH/FINALLY macros (include/exceptions.h) as a machine over the contexts they chain, and the
    structured exceptions that the machine is meant to give. */
module Exceptions {
  import opened CTypes

  // ------------------------------------------------------------------ programs

  /** What a program has done so far; conditions may depend on all of it. */
  type Trace = seq<int>

  /** Blocks may nest anywhere: in a body, in a handler, in a FINALLY, in a loop. */
  datatype Stmt =
    | Skip
    | Act(a: int)
    | Throw(x: uint32)
    | ThrowCaught  // THROW(e) of the innermost e that a CATCH_OTHER(e) has bound
    | Seq(s1: Stmt, s2: Stmt)
    | If(c: Trace -> bool, s1: Stmt, s2: Stmt)
    | While(c: Trace -> bool, s: Stmt)
    | Try(body: Stmt, handlers: Handlers, fin: Stmt)

  /** The CATCH(x) clauses in order, then a CATCH_OTHER(e), a CATCH_ALL (which binds nothing) or neither. */
  datatype Handlers =
    | NoMore
    | Catch(x: uint32, h: Stmt, rest: Handlers)
    | CatchOther(bind: bool, h: Stmt)

  /** What the setjmp of a block returns for THROW(x), as its 16-bit `ex` holds it; longjmp turns 0 into 1. */
  function Delivered(x: uint32): uint16 {
    if x == 0 then 1 else U16(x)
  }

  // ------------------------------------------------------------------ structured semantics

  /** Lost: an exception delivered as 0 has come to a TRY, which takes it for no exception. From there on the run has
      no structured meaning. */
  datatype Outcome = Normal(t: Trace) | Raised(x: uint16, t: Trace) | Lost(t: Trace) | Timeout

  /** Structured exceptions. e is the caught exception in scope; fuel bounds the loop iterations in a row. */
  function Exec(s: Stmt, t: Trace, e: uint16, fuel: nat): Outcome
    decreases fuel, s
  {
    match s
    case Skip => Normal(t)
    case Act(a) => Normal(t + [a])
    case Throw(x) => Raised(Delivered(x), t)
    case ThrowCaught => Raised(Delivered(e), t)
    case Seq(s1, s2) =>
      (match Exec(s1, t, e, fuel)
       case Normal(t1) => Exec(s2, t1, e, fuel)
       case o => o)
    case If(c, s1, s2) => if c(t) then Exec(s1, t, e, fuel) else Exec(s2, t, e, fuel)
    case While(c, b) =>
      if !c(t) then Normal(t)
      else if fuel == 0 then Timeout
      else
        (match Exec(b, t, e, fuel - 1)
         case Normal(t1) => Exec(s, t1, e, fuel - 1)
         case o => o)
    case Try(b, hs, f) =>
      match Exec(b, t, e, fuel)
      case Timeout => Timeout
      case Lost(t1) => Lost(t1)
      case Normal(t1) => Exec(f, t1, e, fuel)
      case Raised(x, t1) =>
        if x == 0 then Lost(t1)
        else
          match ExecHandlers(hs, x, t1, e, fuel)
          case None =>  // not caught: FINALLY runs, then the exception goes on outward
            (match Exec(f, t1, e, fuel)
             case Normal(t2) => Raised(x, t2)
             case o => o)
          case Some(Normal(t2)) => Exec(f, t2, e, fuel)
          case Some(o) => o  // a throw in a handler goes outward and skips FINALLY
  }

  /** The first handler that takes x, or None. */
  function ExecHandlers(hs: Handlers, x: uint16, t: Trace, e: uint16, fuel: nat): Option<Outcome>
    decreases fuel, hs
  {
    match hs
    case NoMore => None
    case Catch(y, h, rest) => if x == y then Some(Exec(h, t, e, fuel)) else ExecHandlers(rest, x, t, e, fuel)
    case CatchOther(bind, h) => Some(Exec(h, t, if bind then x else e, fuel))
  }

  // ------------------------------------------------------------------ the machine

  /** A try_context_t: where longjmp continues, the context to go back to, and the exception. */
  datatype Cell = Cell(jmp: nat, previous: Option<nat>, ex: uint16)

  /** What the macros expand to. A block's context is named by the stack slot it occupies. */
  datatype Instr =
    | Do(a: int)
    | ThrowI(x: uint32)
    | ThrowVar(slot: nat)
    | Goto(to: nat)
    | GotoUnless(c: Trace -> bool, to: nat)
    | SetJmp(slot: nat)                          // ex = setjmp(jmp_buf)
    | GotoIfEx(slot: nat, to: nat)               // else-branch of: if (ex == 0)
    | OpenTry(slot: nat)                         // previous = try_context_set(&context)
    | GotoIfExNot(slot: nat, x: uint32, to: nat) // else-branch of: if (ex == x)
    | BindEx(slot: nat)                          // e = ex
    | ClearEx(slot: nat)                         // ex = 0
    | CloseTry(slot: nat)                        // try_context_set(previous)
    | CloseIfActive(slot: nat)                   // if (try_context_get() == &context) CLOSE_TRY
    | EndTry(slot: nat)                          // if (ex != 0) THROW(ex)

  /** uncaught records a throw without any active context, which stops the machine. */
  datatype Machine = Machine(pc: nat, active: Option<nat>, cells: nat -> Cell, vars: nat -> uint16,
                             t: Trace, uncaught: Option<uint16>)

  /** os_longjmp: back to the setjmp of the active context, which stays the active one. */
  function LongJmp(m: Machine, x: uint32): Machine {
    match m.active
    case None => m.(uncaught := Some(Delivered(x)))
    case Some(a) => SetCell(m, a, m.cells(a).(ex := Delivered(x))).(pc := m.cells(a).jmp)
  }

  function SetCell(m: Machine, slot: nat, c: Cell): (m': Machine)
    ensures m' == m.(cells := m'.cells) && m'.cells(slot) == c
    ensures forall k: nat | k != slot :: m'.cells(k) == m.cells(k)
  {
    var cells := m.cells;
    m.(cells := (k: nat) => if k == slot then c else cells(k))
  }

  function SetVar(m: Machine, slot: nat, v: uint16): (m': Machine)
    ensures m' == m.(vars := m'.vars) && m'.vars(slot) == v
    ensures forall k: nat | k != slot :: m'.vars(k) == m.vars(k)
  {
    var vars := m.vars;
    m.(vars := (k: nat) => if k == slot then v else vars(k))
  }

  predicate Running(code: seq<Instr>, m: Machine) {
    m.uncaught == None && m.pc < |code|
  }

  function Step(code: seq<Instr>, m: Machine): Machine {
    if !Running(code, m) then m
    else
      var next := m.(pc := m.pc + 1);
      match code[m.pc]
      case Do(a) => next.(t := m.t + [a])
      case ThrowI(x) => LongJmp(m, x)
      case ThrowVar(slot) => LongJmp(m, m.vars(slot))
      case Goto(to) => m.(pc := to)
      case GotoUnless(c, to) => if c(m.t) then next else m.(pc := to)
      case SetJmp(slot) => SetCell(next, slot, m.cells(slot).(jmp := m.pc + 1, ex := 0))
      case GotoIfEx(slot, to) => if m.cells(slot).ex == 0 then next else m.(pc := to)
      case OpenTry(slot) => SetCell(next, slot, m.cells(slot).(previous := m.active)).(active := Some(slot))
      case GotoIfExNot(slot, x, to) => if m.cells(slot).ex == x then next else m.(pc := to)
      case BindEx(slot) => SetVar(next, slot, m.cells(slot).ex)
      case ClearEx(slot) => SetCell(next, slot, m.cells(slot).(ex := 0))
      case CloseTry(slot) => next.(active := m.cells(slot).previous)
      case CloseIfActive(slot) => if m.active == Some(slot) then next.(active := m.cells(slot).previous) else next
      case EndTry(slot) => if m.cells(slot).ex == 0 then next else LongJmp(m, m.cells(slot).ex)
  }

  function Run(code: seq<Instr>, m: Machine, n: nat): Machine
    decreases n
  {
    if n == 0 then m else Run(code, Step(code, m), n - 1)
  }

  // ------------------------------------------------------------------ macro expansion

  function Len(s: Stmt): nat {
    match s
    case Skip => 0
    case Seq(s1, s2) => Len(s1) + Len(s2)
    case If(_, s1, s2) => Len(s1) + Len(s2) + 2
    case While(_, b) => Len(b) + 2
    case Try(b, hs, f) => Len(b) + LenHandlers(hs) + Len(f) + 6
    case _ => 1
  }

  function LenHandlers(hs: Handlers): nat {
    match hs
    case NoMore => 0
    case Catch(_, h, rest) => Len(h) + 4 + LenHandlers(rest)
    case CatchOther(bind, h) => Len(h) + (if bind then 4 else 3)
  }

  /** The expansion of s at address pc, in a frame whose slots below d are taken and whose variable
      in slot v is the caught exception in scope. */
  function Expand(s: Stmt, d: nat, v: nat, pc: nat): (code: seq<Instr>)
    ensures |code| == Len(s)
    decreases s, 0
  {
    match s
    case Skip => []
    case Act(a) => [Do(a)]
    case Throw(x) => [ThrowI(x)]
    case ThrowCaught => [ThrowVar(v)]
    case Seq(s1, s2) => Chain(Expand(s1, d, v, pc), Expand(s2, d, v, pc + Len(s1)))
    case If(c, s1, s2) =>
      var els := pc + 2 + Len(s1);
      Branch(c, els, els + Len(s2), Expand(s1, d, v, pc + 1), Expand(s2, d, v, els))
    case While(c, b) => Loop(c, pc, pc + 2 + Len(b), Expand(b, d, v, pc + 1))
    case Try(b, hs, f) =>
      var catches := pc + 4 + Len(b);
      var finally := catches + LenHandlers(hs);
      Block(d, catches, finally, Expand(b, d + 1, v, pc + 3), ExpandHandlers(hs, d, v, catches, finally),
            Expand(f, d + 1, v, finally + 1))
  }

  function Chain(first: seq<Instr>, second: seq<Instr>): (code: seq<Instr>)
    ensures |code| == |first| + |second|
  {
    first + second
  }

  function Branch(c: Trace -> bool, els: nat, end: nat, thn: seq<Instr>, els': seq<Instr>): (code: seq<Instr>)
    ensures |code| == |thn| + |els'| + 2
  {
    [GotoUnless(c, els)] + (thn + ([Goto(end)] + els'))
  }

  function Loop(c: Trace -> bool, start: nat, end: nat, body: seq<Instr>): (code: seq<Instr>)
    ensures |code| == |body| + 2
  {
    [GotoUnless(c, end)] + (body + [Goto(start)])
  }

  /** BEGIN_TRY ... END_TRY around the expansions of the body, the handlers and the FINALLY part. */
  function Block(d: nat, catches: nat, finally: nat, body: seq<Instr>, handlers: seq<Instr>, fin: seq<Instr>)
    : (code: seq<Instr>)
    ensures |code| == |body| + |handlers| + |fin| + 6
  {
    [SetJmp(d)] + ([GotoIfEx(d, catches)] + ([OpenTry(d)] +
    (body + ([Goto(finally)] + (handlers + ([CloseIfActive(d)] + (fin + [EndTry(d)])))))))
  }

  function ExpandHandlers(hs: Handlers, d: nat, v: nat, pc: nat, finally: nat): (code: seq<Instr>)
    ensures |code| == LenHandlers(hs)
    decreases hs, 0
  {
    match hs
    case NoMore => []
    case Catch(x, h, rest) =>
      var next := pc + 4 + Len(h);
      [GotoIfExNot(d, x, next)] + (ExpandHandler(h, d, v, pc + 1, finally) +
      ExpandHandlers(rest, d, v, next, finally))
    case CatchOther(bind, h) =>
      if bind then [BindEx(d)] + ExpandHandler(h, d, d, pc + 1, finally) else ExpandHandler(h, d, v, pc, finally)
  }

  /** A handler first marks the exception as consumed and closes its block. */
  function ExpandHandler(h: Stmt, d: nat, v: nat, pc: nat, finally: nat): (code: seq<Instr>)
    ensures |code| == Len(h) + 3
    decreases h, 1
  {
    [ClearEx(d)] + ([CloseTry(d)] + (Expand(h, d + 1, v, pc + 2) + [Goto(finally)]))
  }

  // ------------------------------------------------------------------ simulation

  ghost predicate At(code: seq<Instr>, pc: nat, piece: seq<Instr>) {
    pc + |piece| <= |code| && forall i :: 0 <= i < |piece| ==> code[pc + i] == piece[i]
  }

  lemma AtSplit(code: seq<Instr>, pc: nat, a: seq<Instr>, b: seq<Instr>)
    requires At(code, pc, a + b)
    ensures At(code, pc, a) && At(code, pc + |a|, b)
  {
    forall i | 0 <= i < |a| ensures code[pc + i] == a[i] { assert (a + b)[i] == a[i]; }
    forall i | 0 <= i < |b| ensures code[pc + |a| + i] == b[i] {
      assert (a + b)[|a| + i] == b[i];
      assert code[pc + (|a| + i)] == (a + b)[|a| + i];
    }
  }

  lemma AtOne(code: seq<Instr>, pc: nat, i: Instr)
    requires At(code, pc, [i])
    ensures pc < |code| && code[pc] == i
  {
    assert code[pc + 0] == [i][0];
  }

  lemma AtFirst(code: seq<Instr>, pc: nat, i: Instr, rest: seq<Instr>)
    requires At(code, pc, [i] + rest)
    ensures pc < |code| && code[pc] == i && At(code, pc + 1, rest)
  {
    AtSplit(code, pc, [i], rest);
    AtOne(code, pc, i);
  }

  lemma {:induction false} RunAdd(code: seq<Instr>, m: Machine, a: nat, b: nat)
    ensures Run(code, m, a + b) == Run(code, Run(code, m, a), b)
    decreases a
  {
    if a > 0 { RunAdd(code, Step(code, m), a - 1, b); }
  }

  /** Everything below slot d is as it was, but perhaps the context in slot `but`. */
  ghost predicate Kept(m: Machine, m': Machine, d: nat, but: Option<nat>) {
    && (forall k | 0 <= k < d && Some(k) != but :: m'.cells(k) == m.cells(k))
    && (forall k | 0 <= k < d :: m'.vars(k) == m.vars(k))
  }

  /** The block in slot k has just been opened again while it was open: it has become its own outer context. */
  ghost predicate Reopened(code: seq<Instr>, m: Machine, k: nat) {
    var at := m.cells(k).jmp;
    && m.uncaught == None && m.active == Some(k) && m.cells(k).previous == Some(k)
    && m.pc == at + 2 < |code| && code[at].GotoIfEx? && code[at].slot == k && code[at + 1] == OpenTry(k)
  }

  /** The machine after n steps from m, against the outcome o of the statement it ran: the active context is
      the one present at entry; normally the machine stands behind the statement, and with an exception at the
      setjmp of the active context. */
  ghost predicate Ends(code: seq<Instr>, m: Machine, m': Machine, o: Outcome, d: nat, end: nat, n: nat, fuel: nat) {
    match o
    case Normal(t) =>
      && m'.uncaught == None && m'.pc == end && m'.t == t
      && m'.active == m.active && Kept(m, m', d, None)
    case Raised(x, t) =>
      && m'.t == t && m'.active == m.active && Kept(m, m', d, m.active)
      && (match m.active
          case None => m'.uncaught == Some(x)
          case Some(a) =>
            m'.uncaught == None && m'.pc == m.cells(a).jmp && m'.cells(a) == m.cells(a).(ex := x))
    case Lost(t) => m'.t == t && m'.active.Some? && d <= m'.active.value && Reopened(code, m', m'.active.value)
    case Timeout => n >= fuel && Running(code, m')
  }

  /** The frame that a statement at nesting depth d runs in. */
  ghost predicate InFrame(m: Machine, d: nat, v: nat) {
    m.uncaught == None && v < d && (m.active == None || m.active.value < d)
  }

  /** The layout of an expanded block. */
  lemma BlockLayout(code: seq<Instr>, pc: nat, d: nat, catches: nat, finally: nat,
                    body: seq<Instr>, handlers: seq<Instr>, fin: seq<Instr>)
    requires At(code, pc, Block(d, catches, finally, body, handlers, fin))
    requires catches == pc + 4 + |body| && finally == catches + |handlers|
    ensures finally + 1 + |fin| < |code|
    ensures code[pc] == SetJmp(d) && code[pc + 1] == GotoIfEx(d, catches) && code[pc + 2] == OpenTry(d)
    ensures At(code, pc + 3, body) && code[pc + 3 + |body|] == Goto(finally)
    ensures At(code, catches, handlers) && code[finally] == CloseIfActive(d)
    ensures At(code, finally + 1, fin) && code[finally + 1 + |fin|] == EndTry(d)
  {
    hide At;
    var t4 := handlers + ([CloseIfActive(d)] + (fin + [EndTry(d)]));
    AtFirst(code, pc, SetJmp(d), [GotoIfEx(d, catches)] + ([OpenTry(d)] + (body + ([Goto(finally)] + t4))));
    AtFirst(code, pc + 1, GotoIfEx(d, catches), [OpenTry(d)] + (body + ([Goto(finally)] + t4)));
    AtFirst(code, pc + 2, OpenTry(d), body + ([Goto(finally)] + t4));
    AtSplit(code, pc + 3, body, [Goto(finally)] + t4);
    AtFirst(code, pc + 3 + |body|, Goto(finally), t4);
    AtSplit(code, catches, handlers, [CloseIfActive(d)] + (fin + [EndTry(d)]));
    AtFirst(code, finally, CloseIfActive(d), fin + [EndTry(d)]);
    AtSplit(code, finally + 1, fin, [EndTry(d)]);
    AtOne(code, finally + 1 + |fin|, EndTry(d));
  }

  /** n steps from m end as o says. */
  ghost predicate RunEnds(code: seq<Instr>, m: Machine, n: nat, o: Outcome, d: nat, end: nat, fuel: nat) {
    Ends(code, m, Run(code, m, n), o, d, end, n, fuel)
  }

  /** What a normal end leaves for the statement that follows. */
  lemma NormalEnd(code: seq<Instr>, m: Machine, n: nat, t: Trace, d: nat, v: nat, end: nat, fuel: nat)
    requires InFrame(m, d, v) && RunEnds(code, m, n, Normal(t), d, end, fuel)
    ensures var m' := Run(code, m, n);
      InFrame(m', d, v) && m'.pc == end && m'.t == t && m'.vars(v) == m.vars(v) && m'.active == m.active
  {
  }

  lemma ThenRun(code: seq<Instr>, m: Machine, n1: nat, t1: Trace, end1: nat, n2: nat, o: Outcome, d: nat, end: nat,
                fuel2: nat, fuel: nat)
    requires m.active == None || m.active.value < d
    requires RunEnds(code, m, n1, Normal(t1), d, end1, fuel)
    requires RunEnds(code, Run(code, m, n1), n2, o, d, end, fuel2)
    requires n1 + fuel2 >= fuel
    ensures RunEnds(code, m, n1 + n2, o, d, end, fuel)
  {
    RunAdd(code, m, n1, n2);
    hide Run;
  }

  /** A step that changes nothing but the program counter, then a run. */
  lemma StepThenRun(code: seq<Instr>, m: Machine, n: nat, o: Outcome, d: nat, end: nat, fuel2: nat, fuel: nat)
    requires Running(code, m) && Step(code, m) == m.(pc := Step(code, m).pc)
    requires m.active == None || m.active.value < d
    requires RunEnds(code, Step(code, m), n, o, d, end, fuel2) && fuel2 + 1 >= fuel
    ensures RunEnds(code, m, n + 1, o, d, end, fuel)
  {
    assert Run(code, m, n + 1) == Run(code, Step(code, m), n);
    hide Run;
  }

  /** A run, then the Goto it has come to. */
  lemma RunThenGoto(code: seq<Instr>, m: Machine, n: nat, t: Trace, d: nat, at: nat, to: nat, fuel: nat)
    requires RunEnds(code, m, n, Normal(t), d, at, fuel)
    requires at < |code| && code[at] == Goto(to)
    ensures RunEnds(code, m, n + 1, Normal(t), d, to, fuel)
    ensures Run(code, m, n + 1) == Run(code, m, n).(pc := to)
  {
    RunAdd(code, m, n, 1);
    var m1 := Run(code, m, n);
    assert Run(code, m1, 1) == Step(code, m1);
    hide Run;
  }

  /** Every statement, expanded at any depth in any frame, ends as its structured semantics says. */
  lemma {:induction false} Sim(code: seq<Instr>, s: Stmt, m: Machine, d: nat, v: nat, fuel: nat) returns (n: nat)
    requires InFrame(m, d, v) && At(code, m.pc, Expand(s, d, v, m.pc))
    ensures RunEnds(code, m, n, Exec(s, m.t, m.vars(v), fuel), d, m.pc + Len(s), fuel)
    decreases fuel, s, 2
  {
    hide Exec, Run, RunEnds, At, Expand, Len;
    match s
    case Skip => n := SimSkip(code, m, d, v, fuel);
    case Act(a) => n := SimOne(code, s, m, d, v, fuel);
    case Throw(x) => n := SimOne(code, s, m, d, v, fuel);
    case ThrowCaught => n := SimOne(code, s, m, d, v, fuel);
    case Seq(s1, s2) => n := SimSeq(code, s1, s2, m, d, v, fuel);
    case If(c, s1, s2) => n := SimIf(code, c, s1, s2, m, d, v, fuel);
    case While(c, b) => n := SimWhile(code, c, b, m, d, v, fuel);
    case Try(b, hs, f) => n := SimTry(code, b, hs, f, m, d, v, fuel);
  }

  lemma SimSkip(code: seq<Instr>, m: Machine, d: nat, v: nat, fuel: nat) returns (n: nat)
    requires InFrame(m, d, v)
    ensures RunEnds(code, m, n, Exec(Skip, m.t, m.vars(v), fuel), d, m.pc + Len(Skip), fuel)
  {
    n := 0;
  }

  lemma SimOne(code: seq<Instr>, s: Stmt, m: Machine, d: nat, v: nat, fuel: nat) returns (n: nat)
    requires s.Act? || s.Throw? || s.ThrowCaught?
    requires InFrame(m, d, v) && At(code, m.pc, Expand(s, d, v, m.pc))
    ensures RunEnds(code, m, n, Exec(s, m.t, m.vars(v), fuel), d, m.pc + Len(s), fuel)
  {
    n := 1;
    assert Expand(s, d, v, m.pc)[0] == code[m.pc + 0];
    assert Run(code, m, 1) == Step(code, m);
  }

  lemma SeqFacts(code: seq<Instr>, s1: Stmt, s2: Stmt, pc: nat, d: nat, v: nat)
    requires At(code, pc, Expand(Seq(s1, s2), d, v, pc))
    ensures Len(Seq(s1, s2)) == Len(s1) + Len(s2)
    ensures At(code, pc, Expand(s1, d, v, pc)) && At(code, pc + Len(s1), Expand(s2, d, v, pc + Len(s1)))
  {
    ExpandSeq(s1, s2, d, v, pc);
    LenSeq(s1, s2);
    hide Expand, Len, At;
    AtSplit(code, pc, Expand(s1, d, v, pc), Expand(s2, d, v, pc + Len(s1)));
  }

  lemma LenSeq(s1: Stmt, s2: Stmt)
    ensures Len(Seq(s1, s2)) == Len(s1) + Len(s2)
  {
  }

  lemma ExpandSeq(s1: Stmt, s2: Stmt, d: nat, v: nat, pc: nat)
    ensures Expand(Seq(s1, s2), d, v, pc) == Chain(Expand(s1, d, v, pc), Expand(s2, d, v, pc + Len(s1)))
  {
    hide Chain, Len, ExpandHandlers, Block, Branch, Loop;
  }

  lemma ExecSeq(s1: Stmt, s2: Stmt, t: Trace, e: uint16, fuel: nat)
    ensures Exec(Seq(s1, s2), t, e, fuel) ==
      var o := Exec(s1, t, e, fuel);
      if o.Normal? then Exec(s2, o.t, e, fuel) else o
  {
  }

  lemma {:induction false} SimSeq(code: seq<Instr>, s1: Stmt, s2: Stmt, m: Machine, d: nat, v: nat, fuel: nat)
    returns (n: nat)
    requires InFrame(m, d, v) && At(code, m.pc, Expand(Seq(s1, s2), d, v, m.pc))
    ensures RunEnds(code, m, n, Exec(Seq(s1, s2), m.t, m.vars(v), fuel), d, m.pc + Len(Seq(s1, s2)), fuel)
    decreases fuel, Seq(s1, s2), 0
  {
    hide *;
    SeqFacts(code, s1, s2, m.pc, d, v);
    ExecSeq(s1, s2, m.t, m.vars(v), fuel);
    var o := Exec(s1, m.t, m.vars(v), fuel);
    n := Sim(code, s1, m, d, v, fuel);
    if o.Normal? {
      NormalEnd(code, m, n, o.t, d, v, m.pc + Len(s1), fuel);
      var m1 := Run(code, m, n);
      var n2 := Sim(code, s2, m1, d, v, fuel);
      ThenRun(code, m, n, o.t, m1.pc, n2, Exec(s2, m1.t, m1.vars(v), fuel), d, m1.pc + Len(s2), fuel, fuel);
      n := n + n2;
    } else {
      EndUnused(code, m, n, o, d, m.pc + Len(s1), m.pc + Len(s1) + Len(s2), fuel);
    }
  }

  lemma IfLayout(code: seq<Instr>, c: Trace -> bool, s1: Stmt, s2: Stmt, pc: nat, d: nat, v: nat)
    requires At(code, pc, Expand(If(c, s1, s2), d, v, pc))
    ensures Len(If(c, s1, s2)) == Len(s1) + Len(s2) + 2
    ensures var els := pc + 2 + Len(s1);
      && els <= |code| && code[pc] == GotoUnless(c, els) && code[els - 1] == Goto(els + Len(s2))
      && At(code, pc + 1, Expand(s1, d, v, pc + 1)) && At(code, els, Expand(s2, d, v, els))
  {
    ExpandIf(c, s1, s2, d, v, pc);
    LenIf(c, s1, s2);
    hide Expand, Len, At;
    var els := pc + 2 + Len(s1);
    var c1, c2 := Expand(s1, d, v, pc + 1), Expand(s2, d, v, els);
    AtFirst(code, pc, GotoUnless(c, els), c1 + ([Goto(els + Len(s2))] + c2));
    AtSplit(code, pc + 1, c1, [Goto(els + Len(s2))] + c2);
    AtFirst(code, pc + 1 + Len(s1), Goto(els + Len(s2)), c2);
  }

  lemma IfFacts(code: seq<Instr>, c: Trace -> bool, s1: Stmt, s2: Stmt, m: Machine, d: nat, v: nat)
    requires InFrame(m, d, v) && At(code, m.pc, Expand(If(c, s1, s2), d, v, m.pc))
    ensures Len(If(c, s1, s2)) == Len(s1) + Len(s2) + 2
    ensures var els := m.pc + 2 + Len(s1);
      && Running(code, m) && Step(code, m) == m.(pc := if c(m.t) then m.pc + 1 else els)
      && InFrame(Step(code, m), d, v) && (m.active == None || m.active.value < d)
      && At(code, m.pc + 1, Expand(s1, d, v, m.pc + 1)) && At(code, els, Expand(s2, d, v, els))
      && els <= |code| && code[els - 1] == Goto(els + Len(s2))
  {
    hide Expand, Len, At;
    IfLayout(code, c, s1, s2, m.pc, d, v);
  }

  lemma LenIf(c: Trace -> bool, s1: Stmt, s2: Stmt)
    ensures Len(If(c, s1, s2)) == Len(s1) + Len(s2) + 2
  {
  }

  lemma ExpandIf(c: Trace -> bool, s1: Stmt, s2: Stmt, d: nat, v: nat, pc: nat)
    ensures var els := pc + 2 + Len(s1);
      Expand(If(c, s1, s2), d, v, pc) ==
        Branch(c, els, els + Len(s2), Expand(s1, d, v, pc + 1), Expand(s2, d, v, els))
  {
    hide Branch, Len, ExpandHandlers, Block, Chain, Loop;
  }

  lemma ExecIf(c: Trace -> bool, s1: Stmt, s2: Stmt, t: Trace, e: uint16, fuel: nat)
    ensures Exec(If(c, s1, s2), t, e, fuel) == if c(t) then Exec(s1, t, e, fuel) else Exec(s2, t, e, fuel)
  {
  }

  lemma {:induction false} SimIf(code: seq<Instr>, c: Trace -> bool, s1: Stmt, s2: Stmt, m: Machine, d: nat, v: nat,
                                 fuel: nat)
    returns (n: nat)
    requires InFrame(m, d, v) && At(code, m.pc, Expand(If(c, s1, s2), d, v, m.pc))
    ensures RunEnds(code, m, n, Exec(If(c, s1, s2), m.t, m.vars(v), fuel), d, m.pc + Len(If(c, s1, s2)), fuel)
    decreases fuel, If(c, s1, s2), 0
  {
    hide *;
    IfFacts(code, c, s1, s2, m, d, v);
    ExecIf(c, s1, s2, m.t, m.vars(v), fuel);
    var els := m.pc + 2 + Len(s1);
    var m1 := Step(code, m);
    var o := Exec(If(c, s1, s2), m.t, m.vars(v), fuel);
    if c(m.t) {
      n := Sim(code, s1, m1, d, v, fuel);
      if o.Normal? {
        RunThenGoto(code, m1, n, o.t, d, m1.pc + Len(s1), els + Len(s2), fuel);
        n := n + 1;
      } else {
        EndUnused(code, m1, n, o, d, m1.pc + Len(s1), els + Len(s2), fuel);
      }
    } else {
      n := Sim(code, s2, m1, d, v, fuel);
    }
    StepThenRun(code, m, n, o, d, els + Len(s2), fuel, fuel);
    n := n + 1;
  }

  /** Where a statement would have ended normally does not matter if it does not. */
  lemma EndUnused(code: seq<Instr>, m: Machine, n: nat, o: Outcome, d: nat, end: nat, end': nat, fuel: nat)
    requires !o.Normal?
    ensures RunEnds(code, m, n, o, d, end, fuel) <==> RunEnds(code, m, n, o, d, end', fuel)
  {
  }

  lemma ExpandWhile(c: Trace -> bool, b: Stmt, d: nat, v: nat, pc: nat)
    ensures Expand(While(c, b), d, v, pc) == Loop(c, pc, pc + 2 + Len(b), Expand(b, d, v, pc + 1))
  {
    hide Loop, Len, ExpandHandlers, Block, Chain, Branch;
  }

  lemma LenWhile(c: Trace -> bool, b: Stmt)
    ensures Len(While(c, b)) == 2 + Len(b)
  {
  }

  lemma WhileLayout(code: seq<Instr>, c: Trace -> bool, b: Stmt, pc: nat, d: nat, v: nat)
    requires At(code, pc, Expand(While(c, b), d, v, pc))
    ensures Len(While(c, b)) == 2 + Len(b)
    ensures var end := pc + 2 + Len(b);
      && end <= |code| && code[pc] == GotoUnless(c, end) && code[end - 1] == Goto(pc)
      && At(code, pc + 1, Expand(b, d, v, pc + 1))
  {
    ExpandWhile(c, b, d, v, pc);
    LenWhile(c, b);
    hide At, Expand, Len;
    var end, cb := pc + 2 + Len(b), Expand(b, d, v, pc + 1);
    AtFirst(code, pc, GotoUnless(c, end), cb + [Goto(pc)]);
    AtSplit(code, pc + 1, cb, [Goto(pc)]);
    AtOne(code, pc + 1 + Len(b), Goto(pc));
  }

  lemma WhileFacts(code: seq<Instr>, c: Trace -> bool, b: Stmt, m: Machine, d: nat, v: nat)
    requires InFrame(m, d, v) && At(code, m.pc, Expand(While(c, b), d, v, m.pc))
    ensures Len(While(c, b)) == 2 + Len(b)
    ensures var end := m.pc + 2 + Len(b);
      && Running(code, m) && Step(code, m) == m.(pc := if c(m.t) then m.pc + 1 else end)
      && InFrame(Step(code, m), d, v) && (m.active == None || m.active.value < d)
      && At(code, m.pc + 1, Expand(b, d, v, m.pc + 1)) && end <= |code| && code[end - 1] == Goto(m.pc)
  {
    hide At, Expand, Len;
    WhileLayout(code, c, b, m.pc, d, v);
  }

  lemma {:induction false} SimWhile(code: seq<Instr>, c: Trace -> bool, b: Stmt, m: Machine, d: nat, v: nat, fuel: nat)
    returns (n: nat)
    requires InFrame(m, d, v) && At(code, m.pc, Expand(While(c, b), d, v, m.pc))
    ensures RunEnds(code, m, n, Exec(While(c, b), m.t, m.vars(v), fuel), d, m.pc + Len(While(c, b)), fuel)
    decreases fuel, While(c, b), 0
  {
    hide At, Expand, Len, Exec;
    WhileFacts(code, c, b, m, d, v);
    ExecWhile(c, b, m.t, m.vars(v), fuel);
    var end, m1 := m.pc + 2 + Len(b), Step(code, m);
    if !c(m.t) || fuel == 0 {
      n := if c(m.t) then 0 else 1;
      assert Run(code, m, 1) == m1 && Run(code, m, 0) == m;
    } else {
      hide *;
      n := Sim(code, b, m1, d, v, fuel - 1);
      var o := Exec(b, m.t, m.vars(v), fuel - 1);
      if o.Normal? {
        RunThenGoto(code, m1, n, o.t, d, m1.pc + Len(b), m.pc, fuel - 1);
        StepThenRun(code, m, n + 1, o, d, m.pc, fuel - 1, fuel);
        n := n + 2;
        NormalEnd(code, m, n, o.t, d, v, m.pc, fuel);
        var m2 := Run(code, m, n);
        var n2 := Sim(code, While(c, b), m2, d, v, fuel - 1);
        ThenRun(code, m, n, o.t, m.pc, n2, Exec(While(c, b), m2.t, m2.vars(v), fuel - 1), d, end, fuel - 1, fuel);
        n := n + n2;
      } else {
        EndUnused(code, m1, n, o, d, m1.pc + Len(b), end, fuel - 1);
        StepThenRun(code, m, n, o, d, end, fuel - 1, fuel);
        n := n + 1;
      }
    }
  }

  lemma ExecWhile(c: Trace -> bool, b: Stmt, t: Trace, e: uint16, fuel: nat)
    ensures Exec(While(c, b), t, e, fuel) ==
      if !c(t) then Normal(t)
      else if fuel == 0 then Timeout
      else
        var o := Exec(b, t, e, fuel - 1);
        if o.Normal? then Exec(While(c, b), o.t, e, fuel - 1) else o
  {
  }

  function AfterFinally(ex: uint16, o: Outcome): Outcome {
    if o.Normal? && ex != 0 then Raised(ex, o.t) else o
  }

  /** The FINALLY part: the block is closed if it still is the active one, and an exception that no handler
      has consumed is thrown again. outer is the context that was active before the block. */
  lemma {:induction false} SimFinally(code: seq<Instr>, f: Stmt, m: Machine, outer: Option<nat>, d: nat, v: nat,
                                      fuel: nat)
    returns (n: nat)
    requires InFrame(m.(active := outer), d, v)
    requires m.active == outer || (m.active == Some(d) && m.cells(d).previous == outer)
    requires m.pc + 1 + Len(f) < |code| && code[m.pc] == CloseIfActive(d) && code[m.pc + 1 + Len(f)] == EndTry(d)
    requires At(code, m.pc + 1, Expand(f, d + 1, v, m.pc + 1))
    ensures Ends(code, m.(active := outer), Run(code, m, n),
                 AfterFinally(m.cells(d).ex, Exec(f, m.t, m.vars(v), fuel)), d, m.pc + 2 + Len(f), n, fuel)
    decreases fuel, f, 3
  {
    hide At, Expand, Len, Exec, Run, RunEnds;
    var m1 := Step(code, m);
    assert m1 == m.(active := outer, pc := m.pc + 1);
    n := Sim(code, f, m1, d + 1, v, fuel);
    var o := Exec(f, m.t, m.vars(v), fuel);
    FirstStep(code, m, n);
    if o.Normal? {
      NormalEnd(code, m1, n, o.t, d + 1, v, m1.pc + Len(f), fuel);
      BlockEnds(code, m1, n, o.t, d, m1.pc + Len(f), fuel);
      FirstStep(code, m, n + 1);
      n := n + 2;
    } else {
      FinallyLeft(code, m1, n, o, d, m1.pc + Len(f), fuel);
      n := n + 1;
    }
  }

  /** END_TRY behind a FINALLY part that has ended normally. */
  lemma BlockEnds(code: seq<Instr>, m: Machine, n: nat, t: Trace, d: nat, at: nat, fuel: nat)
    requires RunEnds(code, m, n, Normal(t), d + 1, at, fuel) && at < |code| && code[at] == EndTry(d)
    requires m.active == None || m.active.value < d
    ensures Ends(code, m, Run(code, m, n + 1), AfterFinally(m.cells(d).ex, Normal(t)), d, at + 1, n + 1, fuel)
  {
    LastStep(code, m, n);
    hide Run;
  }

  lemma FinallyLeft(code: seq<Instr>, m: Machine, n: nat, o: Outcome, d: nat, at: nat, fuel: nat)
    requires !o.Normal? && RunEnds(code, m, n, o, d + 1, at, fuel)
    requires m.active == None || m.active.value < d
    ensures Ends(code, m, Run(code, m, n), o, d, at + 1, n + 1, fuel)
  {
    hide Run;
  }

  lemma FirstStep(code: seq<Instr>, m: Machine, n: nat)
    ensures Run(code, m, n + 1) == Run(code, Step(code, m), n)
  {
  }

  lemma LastStep(code: seq<Instr>, m: Machine, n: nat)
    ensures Run(code, m, n + 1) == Step(code, Run(code, m, n))
  {
    RunAdd(code, m, n, 1);
    assert Run(code, Run(code, m, n), 1) == Step(code, Run(code, m, n));
  }

  /** n steps from m end as o says for the code outside the block in slot d; a handler that has ended
      normally leaves no exception behind. */
  ghost predicate HandlerEnds(code: seq<Instr>, m: Machine, n: nat, o: Outcome, d: nat, finally: nat, fuel: nat) {
    && Ends(code, m.(active := m.cells(d).previous), Run(code, m, n), o, d, finally, n, fuel)
    && (o.Normal? ==> Run(code, m, n).cells(d).ex == 0)
  }

  lemma HandlerFacts(code: seq<Instr>, h: Stmt, pc: nat, d: nat, v: nat, finally: nat)
    requires At(code, pc, ExpandHandler(h, d, v, pc, finally))
    ensures pc + 2 + Len(h) < |code| && code[pc] == ClearEx(d) && code[pc + 1] == CloseTry(d)
    ensures At(code, pc + 2, Expand(h, d + 1, v, pc + 2)) && code[pc + 2 + Len(h)] == Goto(finally)
  {
    hide At, Len, Expand;
    var ch := Expand(h, d + 1, v, pc + 2);
    AtFirst(code, pc, ClearEx(d), [CloseTry(d)] + (ch + [Goto(finally)]));
    AtFirst(code, pc + 1, CloseTry(d), ch + [Goto(finally)]);
    AtSplit(code, pc + 2, ch, [Goto(finally)]);
    AtOne(code, pc + 2 + Len(h), Goto(finally));
  }

  /** A handler runs with its block closed, and goes on to the FINALLY part. */
  lemma {:induction false} SimHandler(code: seq<Instr>, h: Stmt, m: Machine, d: nat, v: nat, finally: nat, fuel: nat)
    returns (n: nat)
    requires InFrame(m.(active := m.cells(d).previous), d, 0) && v <= d
    requires At(code, m.pc, ExpandHandler(h, d, v, m.pc, finally))
    ensures HandlerEnds(code, m, n, Exec(h, m.t, m.vars(v), fuel), d, finally, fuel)
    decreases fuel, h, 3
  {
    hide *;
    HandlerFacts(code, h, m.pc, d, v, finally);
    HandlerEntered(code, m, d, v);
    var m2 := Step(code, Step(code, m));
    n := Sim(code, h, m2, d + 1, v, fuel);
    var o := Exec(h, m.t, m.vars(v), fuel);
    if o.Normal? {
      RunThenGoto(code, m2, n, o.t, d + 1, m2.pc + Len(h), finally, fuel);
      n := n + 1;
    } else {
      EndUnused(code, m2, n, o, d + 1, m2.pc + Len(h), finally, fuel);
    }
    HandlerClosed(code, m, n, o, d, finally, fuel);
    n := n + 2;
  }

  /** The two steps that consume the exception and close the block. */
  lemma HandlerEntered(code: seq<Instr>, m: Machine, d: nat, v: nat)
    requires InFrame(m.(active := m.cells(d).previous), d, 0) && v <= d
    requires m.pc + 1 < |code| && code[m.pc] == ClearEx(d) && code[m.pc + 1] == CloseTry(d)
    ensures var m2 := Step(code, Step(code, m));
      && InFrame(m2, d + 1, v) && m2.pc == m.pc + 2 && m2.t == m.t && m2.vars == m.vars
      && m2.active == m.cells(d).previous && m2.cells(d).ex == 0
      && (forall k | 0 <= k < d :: m2.cells(k) == m.cells(k))
  {
  }

  /** ... and then the handler's run. */
  lemma HandlerClosed(code: seq<Instr>, m: Machine, n: nat, o: Outcome, d: nat, finally: nat, fuel: nat)
    requires InFrame(m.(active := m.cells(d).previous), d, 0)
    requires m.pc + 1 < |code| && code[m.pc] == ClearEx(d) && code[m.pc + 1] == CloseTry(d)
    requires RunEnds(code, Step(code, Step(code, m)), n, o, d + 1, finally, fuel)
    ensures HandlerEnds(code, m, n + 2, o, d, finally, fuel)
  {
    HandlerEntered(code, m, d, 0);
    FirstStep(code, Step(code, m), n);
    FirstStep(code, m, n + 1);
    hide Run, Step;
  }

  /** One step, to a machine that differs in nothing that matters to the code outside the block in slot d. */
  lemma StepThenHandler(code: seq<Instr>, m: Machine, n: nat, o: Outcome, d: nat, finally: nat, fuel: nat)
    requires Running(code, m) && InFrame(m.(active := m.cells(d).previous), d, 0)
    requires var m1 := Step(code, m);
      && m1.active == m.active && m1.cells == m.cells && m1.t == m.t && m1.uncaught == None
      && (forall k | 0 <= k < d :: m1.vars(k) == m.vars(k))
      && HandlerEnds(code, m1, n, o, d, finally, fuel)
    ensures HandlerEnds(code, m, n + 1, o, d, finally, fuel)
  {
    FirstStep(code, m, n);
    hide Run;
  }

  /** The CATCH clauses: the first that takes the exception runs; otherwise nothing changes. */
  lemma {:induction false} SimHandlers(code: seq<Instr>, hs: Handlers, m: Machine, d: nat, v: nat, finally: nat,
                                       fuel: nat)
    returns (n: nat)
    requires InFrame(m.(active := m.cells(d).previous), d, v)
    requires finally == m.pc + LenHandlers(hs)
    requires At(code, m.pc, ExpandHandlers(hs, d, v, m.pc, finally))
    ensures match ExecHandlers(hs, m.cells(d).ex, m.t, m.vars(v), fuel)
      case None => Run(code, m, n) == m.(pc := finally)
      case Some(o) => HandlerEnds(code, m, n, o, d, finally, fuel)
    decreases fuel, hs, 1
  {
    match hs
    case NoMore => n := 0;
    case Catch(x, h, rest) =>
      n := SimCatch(code, x, h, rest, m, d, v, finally, fuel);
    case CatchOther(bind, h) =>
      if bind {
        AtFirst(code, m.pc, BindEx(d), ExpandHandler(h, d, d, m.pc + 1, finally));
        hide At, ExpandHandler, ExpandHandlers, Len, Run, HandlerEnds, Exec;
        n := SimHandler(code, h, Step(code, m), d, d, finally, fuel);
        StepThenHandler(code, m, n, Exec(h, m.t, m.cells(d).ex, fuel), d, finally, fuel);
        n := n + 1;
      } else {
        n := SimHandler(code, h, m, d, v, finally, fuel);
      }
  }

  lemma ExpandCatch(x: uint32, h: Stmt, rest: Handlers, d: nat, v: nat, pc: nat, finally: nat)
    ensures LenHandlers(Catch(x, h, rest)) == Len(h) + 4 + LenHandlers(rest)
    ensures var next := pc + 4 + Len(h);
      ExpandHandlers(Catch(x, h, rest), d, v, pc, finally) ==
        [GotoIfExNot(d, x, next)] +
        (ExpandHandler(h, d, v, pc + 1, finally) + ExpandHandlers(rest, d, v, next, finally))
  {
    hide Len, ExpandHandler;
  }

  lemma CatchLayout(code: seq<Instr>, x: uint32, h: Stmt, rest: Handlers, pc: nat, d: nat, v: nat, finally: nat)
    requires finally == pc + LenHandlers(Catch(x, h, rest))
    requires At(code, pc, ExpandHandlers(Catch(x, h, rest), d, v, pc, finally))
    ensures var next := pc + 4 + Len(h);
      && pc < |code| && code[pc] == GotoIfExNot(d, x, next) && finally == next + LenHandlers(rest)
      && At(code, pc + 1, ExpandHandler(h, d, v, pc + 1, finally))
      && At(code, next, ExpandHandlers(rest, d, v, next, finally))
  {
    ExpandCatch(x, h, rest, d, v, pc, finally);
    hide Len, LenHandlers, ExpandHandler, ExpandHandlers, At;
    var next := pc + 4 + Len(h);
    var ch, cr := ExpandHandler(h, d, v, pc + 1, finally), ExpandHandlers(rest, d, v, next, finally);
    AtFirst(code, pc, GotoIfExNot(d, x, next), ch + cr);
    AtSplit(code, pc + 1, ch, cr);
  }

  lemma CatchFacts(code: seq<Instr>, x: uint32, h: Stmt, rest: Handlers, m: Machine, d: nat, v: nat, finally: nat)
    requires InFrame(m.(active := m.cells(d).previous), d, v)
    requires finally == m.pc + LenHandlers(Catch(x, h, rest))
    requires At(code, m.pc, ExpandHandlers(Catch(x, h, rest), d, v, m.pc, finally))
    ensures var next := m.pc + 4 + Len(h);
      && Running(code, m) && Step(code, m) == m.(pc := if m.cells(d).ex == x then m.pc + 1 else next)
      && finally == next + LenHandlers(rest)
      && At(code, m.pc + 1, ExpandHandler(h, d, v, m.pc + 1, finally))
      && At(code, next, ExpandHandlers(rest, d, v, next, finally))
  {
    hide Len, LenHandlers, ExpandHandler, ExpandHandlers, At;
    CatchLayout(code, x, h, rest, m.pc, d, v, finally);
  }

  lemma {:induction false} SimCatch(code: seq<Instr>, x: uint32, h: Stmt, rest: Handlers, m: Machine, d: nat, v: nat,
                                    finally: nat, fuel: nat)
    returns (n: nat)
    requires InFrame(m.(active := m.cells(d).previous), d, v)
    requires finally == m.pc + LenHandlers(Catch(x, h, rest))
    requires At(code, m.pc, ExpandHandlers(Catch(x, h, rest), d, v, m.pc, finally))
    ensures match ExecHandlers(Catch(x, h, rest), m.cells(d).ex, m.t, m.vars(v), fuel)
      case None => Run(code, m, n) == m.(pc := finally)
      case Some(o) => HandlerEnds(code, m, n, o, d, finally, fuel)
    decreases fuel, Catch(x, h, rest), 0
  {
    hide At, Expand, ExpandHandler, ExpandHandlers, Len, LenHandlers, Run, HandlerEnds, Exec, Step;
    CatchFacts(code, x, h, rest, m, d, v, finally);
    var m1 := Step(code, m);
    var o := ExecHandlers(Catch(x, h, rest), m.cells(d).ex, m.t, m.vars(v), fuel);
    if m.cells(d).ex == x {
      n := SimHandler(code, h, m1, d, v, finally, fuel);
      StepThenHandler(code, m, n, o.value, d, finally, fuel);
    } else {
      n := SimHandlers(code, rest, m1, d, v, finally, fuel);
      if o.Some? { StepThenHandler(code, m, n, o.value, d, finally, fuel); } else { FirstStep(code, m, n); }
    }
    n := n + 1;
  }

  /** The machine after n steps from the setjmp of the block in slot d at machine m, against the outcome of the
      body: with an exception it is back behind that setjmp, and the block is still the active one. */
  ghost predicate BodyEnds(code: seq<Instr>, m: Machine, m': Machine, o: Outcome, d: nat, end: nat, n: nat, fuel: nat) {
    if o.Timeout? then n >= fuel && Running(code, m')
    else if o.Lost? then m'.t == o.t && m'.active.Some? && d < m'.active.value && Reopened(code, m', m'.active.value)
    else
      && m'.uncaught == None && m'.t == o.t && Kept(m, m', d, None)
      && m'.active == Some(d) && m'.cells(d).previous == m.active
      && (if o.Normal? then m'.pc == end && m'.cells(d).ex == 0
          else m'.pc == m.pc + 1 == m'.cells(d).jmp && m'.cells(d).ex == o.x)
  }

  lemma {:induction false} SimBody(code: seq<Instr>, b: Stmt, m: Machine, d: nat, v: nat, catches: nat, fuel: nat)
    returns (n: nat)
    requires InFrame(m, d, v)
    requires m.pc + 2 < |code| && code[m.pc] == SetJmp(d) && code[m.pc + 1] == GotoIfEx(d, catches)
    requires code[m.pc + 2] == OpenTry(d) && At(code, m.pc + 3, Expand(b, d + 1, v, m.pc + 3))
    ensures BodyEnds(code, m, Run(code, m, n), Exec(b, m.t, m.vars(v), fuel), d, m.pc + 3 + Len(b), n, fuel)
    decreases fuel, b, 3
  {
    hide At, Expand, Len, Exec, Run, RunEnds, BodyEnds;
    BlockEntered(code, m, d, v, catches);
    hide Step;
    n := Sim(code, b, Step(code, Step(code, Step(code, m))), d + 1, v, fuel);
    BodyDone(code, m, n, Exec(b, m.t, m.vars(v), fuel), d, v, catches, m.pc + 3 + Len(b), fuel);
    n := n + 3;
  }

  /** The three steps that open a block. */
  lemma BlockEntered(code: seq<Instr>, m: Machine, d: nat, v: nat, catches: nat)
    requires InFrame(m, d, v) && m.pc + 2 < |code|
    requires code[m.pc] == SetJmp(d) && code[m.pc + 1] == GotoIfEx(d, catches) && code[m.pc + 2] == OpenTry(d)
    ensures var m3 := Step(code, Step(code, Step(code, m)));
      && InFrame(m3, d + 1, v) && m3.pc == m.pc + 3 && m3.t == m.t && m3.vars == m.vars && m3.active == Some(d)
      && m3.cells(d) == Cell(m.pc + 1, m.active, 0) && (forall k | 0 <= k < d :: m3.cells(k) == m.cells(k))
  {
  }

  lemma BodyDone(code: seq<Instr>, m: Machine, n: nat, o: Outcome, d: nat, v: nat, catches: nat, end: nat, fuel: nat)
    requires InFrame(m, d, v) && m.pc + 2 < |code|
    requires code[m.pc] == SetJmp(d) && code[m.pc + 1] == GotoIfEx(d, catches) && code[m.pc + 2] == OpenTry(d)
    requires RunEnds(code, Step(code, Step(code, Step(code, m))), n, o, d + 1, end, fuel)
    ensures BodyEnds(code, m, Run(code, m, n + 3), o, d, end, n + 3, fuel)
  {
    BlockEntered(code, m, d, v, catches);
    FirstStep(code, Step(code, Step(code, m)), n);
    FirstStep(code, Step(code, m), n + 1);
    FirstStep(code, m, n + 2);
    hide Run, Step;
  }

  /** Body and handlers of a block: a normal outcome means that FINALLY is next, with ex as the exception
      that is still pending. */
  function UpToFinally(b: Stmt, hs: Handlers, t: Trace, e: uint16, fuel: nat): (Outcome, uint16) {
    match Exec(b, t, e, fuel)
    case Raised(x, t1) =>
      if x == 0 then (Lost(t1), 0)
      else
        (match ExecHandlers(hs, x, t1, e, fuel)
         case None => (Normal(t1), x)
         case Some(o) => (o, 0))
    case o => (o, 0)
  }

  lemma UpToFinallyIs(b: Stmt, hs: Handlers, t: Trace, e: uint16, fuel: nat)
    ensures var ob := Exec(b, t, e, fuel);
      UpToFinally(b, hs, t, e, fuel) ==
        if !ob.Raised? then (ob, 0)
        else if ob.x == 0 then (Lost(ob.t), 0)
        else
          var oh := ExecHandlers(hs, ob.x, ob.t, e, fuel);
          if oh.None? then (Normal(ob.t), ob.x) else (oh.value, 0)
  {
    hide Exec, ExecHandlers;
  }

  lemma ExecTry(b: Stmt, hs: Handlers, f: Stmt, t: Trace, e: uint16, fuel: nat)
    ensures var (o, ex) := UpToFinally(b, hs, t, e, fuel);
      Exec(Try(b, hs, f), t, e, fuel) == if o.Normal? then AfterFinally(ex, Exec(f, o.t, e, fuel)) else o
  {
  }

  /** The machine at the FINALLY part of the block in slot d, with ex pending. */
  ghost predicate AtFinally(m: Machine, m': Machine, t: Trace, ex: uint16, d: nat, finally: nat) {
    && m'.uncaught == None && m'.pc == finally && m'.t == t && Kept(m, m', d, None) && m'.cells(d).ex == ex
    && (m'.active == m.active || (m'.active == Some(d) && m'.cells(d).previous == m.active))
  }

  /** Body and handlers are done: either FINALLY is next, or the block is left without it. */
  ghost predicate Arrives(code: seq<Instr>, m: Machine, m': Machine, o: Outcome, ex: uint16, d: nat, finally: nat,
                          n: nat, fuel: nat) {
    if o.Normal? then AtFinally(m, m', o.t, ex, d, finally) else Ends(code, m, m', o, d, finally, n, fuel)
  }

  /** n steps from m lead to machine mc, at the handlers with exception x. */
  lemma {:induction false} SimRaised(code: seq<Instr>, hs: Handlers, m: Machine, n: nat, mc: Machine, x: uint16,
                                     t: Trace,
                                     d: nat, v: nat, finally: nat, fuel: nat) returns (nh: nat)
    requires InFrame(m, d, v) && mc == Run(code, m, n)
    requires AtFinally(m, mc, t, x, d, mc.pc) && mc.active == Some(d) && mc.cells(d).previous == m.active
    requires finally == mc.pc + LenHandlers(hs) && At(code, mc.pc, ExpandHandlers(hs, d, v, mc.pc, finally))
    ensures var m' := Run(code, m, n + nh);
      match ExecHandlers(hs, x, t, m.vars(v), fuel)
      case None => Arrives(code, m, m', Normal(t), x, d, finally, n + nh, fuel)
      case Some(o) => Arrives(code, m, m', o, 0, d, finally, n + nh, fuel)
    decreases fuel, hs, 2
  {
    hide At, ExpandHandlers, LenHandlers, ExecHandlers, Run, HandlerEnds;
    nh := SimHandlers(code, hs, mc, d, v, finally, fuel);
    RunAdd(code, m, n, nh);
    var oh := ExecHandlers(hs, x, t, m.vars(v), fuel);
    if oh.Some? {
      HandlerEndsOutside(code, m, mc, nh, n, oh.value, d, v, finally, fuel);
    }
  }

  lemma {:induction false} SimUpToFinally(code: seq<Instr>, b: Stmt, hs: Handlers, f: Stmt, m: Machine, d: nat,
                                          v: nat, fuel: nat)
    returns (n: nat)
    requires InFrame(m, d, v)
    requires var catches := m.pc + 4 + Len(b);
      var finally := catches + LenHandlers(hs);
      && finally < |code|
      && code[m.pc] == SetJmp(d) && code[m.pc + 1] == GotoIfEx(d, catches) && code[m.pc + 2] == OpenTry(d)
      && At(code, m.pc + 3, Expand(b, d + 1, v, m.pc + 3)) && code[m.pc + 3 + Len(b)] == Goto(finally)
      && At(code, catches, ExpandHandlers(hs, d, v, catches, finally))
    ensures var (o, ex) := UpToFinally(b, hs, m.t, m.vars(v), fuel);
      Arrives(code, m, Run(code, m, n), o, ex, d, m.pc + 4 + Len(b) + LenHandlers(hs), n, fuel)
    decreases fuel, Try(b, hs, f), 0
  {
    hide *;
    UpToFinallyIs(b, hs, m.t, m.vars(v), fuel);
    var catches := m.pc + 4 + Len(b);
    var finally := catches + LenHandlers(hs);
    n := SimBody(code, b, m, d, v, catches, fuel);
    var ob := Exec(b, m.t, m.vars(v), fuel);
    if ob.Timeout? || ob.Lost? {
      BodyNotLeft(code, m, n, ob, d, m.pc + 3 + Len(b), finally, fuel);
    } else if ob.Raised? && ob.x == 0 {
      BodyReopened(code, m, n, ob, d, v, catches, m.pc + 3 + Len(b), finally, fuel);
      n := n + 2;
    } else {
      BodyLeft(code, m, n, ob, d, v, catches, finally, m.pc + 3 + Len(b), fuel);
      n := n + 1;
      if ob.Raised? {
        var nh := SimRaised(code, hs, m, n, Run(code, m, n), ob.x, ob.t, d, v, finally, fuel);
        n := n + nh;
      }
    }
  }

  /** The jump at the end of the body, or at its setjmp with an exception: to FINALLY, or to the handlers. */
  lemma BodyLeft(code: seq<Instr>, m: Machine, n: nat, o: Outcome, d: nat, v: nat, catches: nat, finally: nat,
                 end: nat, fuel: nat)
    requires InFrame(m, d, v) && m.pc + 1 < |code| && end < |code| && finally < |code|
    requires code[m.pc + 1] == GotoIfEx(d, catches) && code[end] == Goto(finally)
    requires (o.Normal? || (o.Raised? && o.x != 0)) && BodyEnds(code, m, Run(code, m, n), o, d, end, n, fuel)
    ensures var mc := Run(code, m, n + 1);
      && AtFinally(m, mc, o.t, if o.Normal? then 0 else o.x, d, if o.Normal? then finally else catches)
      && mc.active == Some(d) && mc.cells(d).previous == m.active && mc.pc == (if o.Normal? then finally else catches)
    ensures o.Normal? ==> Arrives(code, m, Run(code, m, n + 1), o, 0, d, finally, n + 1, fuel)
  {
    LastStep(code, m, n);
    hide Run;
  }

  lemma BodyNotLeft(code: seq<Instr>, m: Machine, n: nat, o: Outcome, d: nat, end: nat, end': nat, fuel: nat)
    requires (o.Timeout? || o.Lost?) && BodyEnds(code, m, Run(code, m, n), o, d, end, n, fuel)
    ensures Arrives(code, m, Run(code, m, n), o, 0, d, end', n, fuel)
  {
    hide Run;
  }

  /** Back at its setjmp with 0, the body is entered as if for the first time. */
  lemma BodyReopened(code: seq<Instr>, m: Machine, n: nat, o: Outcome, d: nat, v: nat, catches: nat, end: nat,
                     end': nat, fuel: nat)
    requires InFrame(m, d, v) && m.pc + 3 < |code|
    requires code[m.pc + 1] == GotoIfEx(d, catches) && code[m.pc + 2] == OpenTry(d)
    requires o.Raised? && o.x == 0 && BodyEnds(code, m, Run(code, m, n), o, d, end, n, fuel)
    ensures Arrives(code, m, Run(code, m, n + 2), Lost(o.t), 0, d, end', n + 2, fuel)
  {
    LastStep(code, m, n);
    LastStep(code, m, n + 1);
    hide Run, Kept;
    var m' := Run(code, m, n);
    var m1 := Step(code, m');
    assert m1 == m'.(pc := m.pc + 2);
    assert Reopened(code, Step(code, m1), d);
  }

  /** The end of a handler, seen from the entry of its block. */
  lemma HandlerEndsOutside(code: seq<Instr>, m: Machine, mc: Machine, nh: nat, n: nat, o: Outcome, d: nat,
                           v: nat, finally: nat, fuel: nat)
    requires Kept(m, mc, d, None) && mc.cells(d).previous == m.active && mc.uncaught == None
    requires InFrame(m, d, v)
    requires HandlerEnds(code, mc, nh, o, d, finally, fuel)
    ensures Arrives(code, m, Run(code, mc, nh), o, 0, d, finally, n + nh, fuel)
  {
    hide Run;
  }

  /** From the FINALLY part on, seen from machine m at the entry of the block. */
  lemma {:induction false} SimTryRest(code: seq<Instr>, f: Stmt, m: Machine, mc: Machine, t: Trace, ex: uint16,
                                      d: nat, v: nat,
                   finally: nat, fuel: nat) returns (n: nat)
    requires InFrame(m, d, v) && AtFinally(m, mc, t, ex, d, finally)
    requires finally + 1 + Len(f) < |code| && code[finally] == CloseIfActive(d)
             && code[finally + 1 + Len(f)] == EndTry(d)
    requires At(code, finally + 1, Expand(f, d + 1, v, finally + 1))
    ensures Ends(code, m, Run(code, mc, n), AfterFinally(ex, Exec(f, t, m.vars(v), fuel)), d,
                 finally + 2 + Len(f), n, fuel)
    decreases fuel, f, 4
  {
    hide Run, Exec, Expand, At, Len;
    n := SimFinally(code, f, mc, m.active, d, v, fuel);
  }

  /** The steps before a run only add to its number of steps. */
  lemma EndsLater(code: seq<Instr>, m: Machine, n1: nat, n2: nat, o: Outcome, d: nat, end: nat, fuel: nat)
    requires Ends(code, m, Run(code, Run(code, m, n1), n2), o, d, end, n2, fuel)
    ensures RunEnds(code, m, n1 + n2, o, d, end, fuel)
  {
    RunAdd(code, m, n1, n2);
    hide Run;
  }

  lemma LenTry(b: Stmt, hs: Handlers, f: Stmt)
    ensures Len(Try(b, hs, f)) == Len(b) + LenHandlers(hs) + Len(f) + 6
  {
  }

  lemma ExpandTry(b: Stmt, hs: Handlers, f: Stmt, d: nat, v: nat, pc: nat)
    ensures Len(Try(b, hs, f)) == Len(b) + LenHandlers(hs) + Len(f) + 6
    ensures var catches := pc + 4 + Len(b);
      var finally := catches + LenHandlers(hs);
      Expand(Try(b, hs, f), d, v, pc) ==
        Block(d, catches, finally, Expand(b, d + 1, v, pc + 3), ExpandHandlers(hs, d, v, catches, finally),
              Expand(f, d + 1, v, finally + 1))
  {
    LenTry(b, hs, f);
    hide Block, ExpandHandlers, LenHandlers, Len;
  }

  lemma TryFacts(code: seq<Instr>, b: Stmt, hs: Handlers, f: Stmt, pc: nat, d: nat, v: nat)
    requires At(code, pc, Expand(Try(b, hs, f), d, v, pc))
    ensures Len(Try(b, hs, f)) == Len(b) + LenHandlers(hs) + Len(f) + 6
    ensures var catches := pc + 4 + Len(b);
      var finally := catches + LenHandlers(hs);
      && finally + 1 + Len(f) < |code|
      && code[pc] == SetJmp(d) && code[pc + 1] == GotoIfEx(d, catches) && code[pc + 2] == OpenTry(d)
      && At(code, pc + 3, Expand(b, d + 1, v, pc + 3)) && code[pc + 3 + Len(b)] == Goto(finally)
      && At(code, catches, ExpandHandlers(hs, d, v, catches, finally)) && code[finally] == CloseIfActive(d)
      && At(code, finally + 1, Expand(f, d + 1, v, finally + 1)) && code[finally + 1 + Len(f)] == EndTry(d)
  {
    ExpandTry(b, hs, f, d, v, pc);
    hide At, Expand, ExpandHandlers, Len, LenHandlers, Block;
    var catches := pc + 4 + Len(b);
    var finally := catches + LenHandlers(hs);
    var cb, ch, cf := Expand(b, d + 1, v, pc + 3), ExpandHandlers(hs, d, v, catches, finally),
                      Expand(f, d + 1, v, finally + 1);
    BlockLayout(code, pc, d, catches, finally, cb, ch, cf);
  }

  lemma {:induction false} SimTry(code: seq<Instr>, b: Stmt, hs: Handlers, f: Stmt, m: Machine, d: nat, v: nat,
                                  fuel: nat)
    returns (n: nat)
    requires InFrame(m, d, v) && At(code, m.pc, Expand(Try(b, hs, f), d, v, m.pc))
    ensures RunEnds(code, m, n, Exec(Try(b, hs, f), m.t, m.vars(v), fuel), d, m.pc + Len(Try(b, hs, f)), fuel)
    decreases fuel, Try(b, hs, f), 1
  {
    hide *;
    TryFacts(code, b, hs, f, m.pc, d, v);
    n := SimUpToFinally(code, b, hs, f, m, d, v, fuel);
    ExecTry(b, hs, f, m.t, m.vars(v), fuel);
    var (o, ex) := UpToFinally(b, hs, m.t, m.vars(v), fuel);
    var finally := m.pc + 4 + Len(b) + LenHandlers(hs);
    Arrived(code, m, n, o, ex, d, finally, finally + 2 + Len(f), fuel);
    if o.Normal? {
      var nf := SimTryRest(code, f, m, Run(code, m, n), o.t, ex, d, v, finally, fuel);
      EndsLater(code, m, n, nf, AfterFinally(ex, Exec(f, o.t, m.vars(v), fuel)), d, finally + 2 + Len(f), fuel);
      n := n + nf;
    }
  }

  lemma Arrived(code: seq<Instr>, m: Machine, n: nat, o: Outcome, ex: uint16, d: nat, end: nat, end': nat, fuel: nat)
    requires Arrives(code, m, Run(code, m, n), o, ex, d, end, n, fuel)
    ensures o.Normal? ==> AtFinally(m, Run(code, m, n), o.t, ex, d, end)
    ensures !o.Normal? ==> RunEnds(code, m, n, o, d, end', fuel)
  {
    hide Run;
  }

  // ------------------------------------------------------------------ where control can go

  /** An instruction that control may reach from anywhere. */
  predicate Free(code: seq<Instr>, pc: nat) {
    pc < |code| ==>
      match code[pc]
      case GotoIfEx(_, _) | OpenTry(_) | GotoIfExNot(_, _, _) | BindEx(_) | ClearEx(_) | CloseTry(_) => false
      case _ => true
  }

  /** The slot of the block that an instruction handles an exception of. */
  function Handled(i: Instr): Option<nat> {
    match i
    case GotoIfExNot(k, _, _) => Some(k)
    case BindEx(k) => Some(k)
    case ClearEx(k) => Some(k)
    case CloseTry(k) => Some(k)
    case _ => None
  }

  /** Control may come here while an exception of the block in slot k is handled. */
  predicate Handling(code: seq<Instr>, pc: nat, k: nat) {
    Free(code, pc) || (pc < |code| && Handled(code[pc]) == Some(k))
  }

  /** A setjmp of the block in slot k returns here. */
  predicate SetJmpReturns(code: seq<Instr>, pc: nat, k: nat) {
    pc + 1 < |code| && code[pc].GotoIfEx? && code[pc].slot == k && code[pc + 1] == OpenTry(k)
  }

  /** Where control goes from pc. */
  predicate FlowsAt(code: seq<Instr>, pc: nat)
    requires pc < |code|
  {
    match code[pc]
    case Goto(to) => Free(code, to)
    case GotoUnless(_, to) => Free(code, pc + 1) && Free(code, to)
    case SetJmp(k) => SetJmpReturns(code, pc + 1, k)
    case GotoIfEx(k, to) => SetJmpReturns(code, pc, k) && Handling(code, to, k)
    case OpenTry(k) => k >= 1 && Free(code, pc + 1)
    case GotoIfExNot(k, _, to) => Handling(code, pc + 1, k) && Handling(code, to, k)
    case BindEx(k) => Handling(code, pc + 1, k)
    case ClearEx(k) => Handling(code, pc + 1, k)
    case _ => Free(code, pc + 1)
  }

  ghost predicate Flows(code: seq<Instr>, from: nat, to: nat) {
    to <= |code| && forall i :: from <= i < to ==> FlowsAt(code, i)
  }

  lemma FlowsBefore(code: seq<Instr>, from: nat, mid: nat, to: nat)
    requires from <= mid <= to && Flows(code, from, mid) && Flows(code, mid, to)
    ensures Flows(code, from, to)
  {
  }

  lemma FlowsOne(code: seq<Instr>, pc: nat)
    requires pc < |code| && FlowsAt(code, pc)
    ensures Flows(code, pc, pc + 1)
  {
  }

  lemma {:induction false} StmtFlows(code: seq<Instr>, s: Stmt, d: nat, v: nat, pc: nat)
    requires d >= 1 && At(code, pc, Expand(s, d, v, pc)) && Free(code, pc + Len(s))
    ensures Free(code, pc) && Flows(code, pc, pc + Len(s))
    decreases s, 1
  {
    hide *;
    match s
    case Skip => SkipFlows(code, d, v, pc);
    case Seq(s1, s2) => SeqFlows(code, s1, s2, d, v, pc);
    case If(c, s1, s2) => IfFlows(code, c, s1, s2, d, v, pc);
    case While(c, b) => WhileFlows(code, c, b, d, v, pc);
    case Try(b, hs, f) => TryFlows(code, b, hs, f, d, v, pc);
    case _ => OneFlows(code, s, d, v, pc);
  }

  lemma SkipFlows(code: seq<Instr>, d: nat, v: nat, pc: nat)
    requires At(code, pc, Expand(Skip, d, v, pc))
    ensures Len(Skip) == 0 && Flows(code, pc, pc)
  {
  }

  lemma OneFlows(code: seq<Instr>, s: Stmt, d: nat, v: nat, pc: nat)
    requires s.Act? || s.Throw? || s.ThrowCaught?
    requires At(code, pc, Expand(s, d, v, pc)) && Free(code, pc + Len(s))
    ensures Free(code, pc) && Flows(code, pc, pc + Len(s))
  {
    assert code[pc + 0] == Expand(s, d, v, pc)[0];
  }

  lemma {:induction false} SeqFlows(code: seq<Instr>, s1: Stmt, s2: Stmt, d: nat, v: nat, pc: nat)
    requires d >= 1 && At(code, pc, Expand(Seq(s1, s2), d, v, pc)) && Free(code, pc + Len(Seq(s1, s2)))
    ensures Free(code, pc) && Flows(code, pc, pc + Len(Seq(s1, s2)))
    decreases Seq(s1, s2), 0
  {
    hide *;
    SeqFacts(code, s1, s2, pc, d, v);
    StmtFlows(code, s2, d, v, pc + Len(s1));
    StmtFlows(code, s1, d, v, pc);
    FlowsBefore(code, pc, pc + Len(s1), pc + Len(Seq(s1, s2)));
  }

  lemma {:induction false} IfFlows(code: seq<Instr>, c: Trace -> bool, s1: Stmt, s2: Stmt, d: nat, v: nat, pc: nat)
    requires d >= 1 && At(code, pc, Expand(If(c, s1, s2), d, v, pc)) && Free(code, pc + Len(If(c, s1, s2)))
    ensures Free(code, pc) && Flows(code, pc, pc + Len(If(c, s1, s2)))
    decreases If(c, s1, s2), 0
  {
    hide Expand, At, Len, Flows;
    IfLayout(code, c, s1, s2, pc, d, v);
    var els := pc + 2 + Len(s1);
    StmtFlows(code, s2, d, v, els);
    StmtFlows(code, s1, d, v, pc + 1);
    FlowsOne(code, pc);
    FlowsOne(code, els - 1);
    FlowsBefore(code, pc, pc + 1, els - 1);
    FlowsBefore(code, pc, els - 1, els);
    FlowsBefore(code, pc, els, els + Len(s2));
  }

  lemma {:induction false} WhileFlows(code: seq<Instr>, c: Trace -> bool, b: Stmt, d: nat, v: nat, pc: nat)
    requires d >= 1 && At(code, pc, Expand(While(c, b), d, v, pc)) && Free(code, pc + Len(While(c, b)))
    ensures Free(code, pc) && Flows(code, pc, pc + Len(While(c, b)))
    decreases While(c, b), 0
  {
    hide Expand, At, Len, Flows;
    WhileLayout(code, c, b, pc, d, v);
    StmtFlows(code, b, d, v, pc + 1);
    FlowsOne(code, pc);
    FlowsOne(code, pc + 1 + Len(b));
    FlowsBefore(code, pc, pc + 1, pc + 1 + Len(b));
    FlowsBefore(code, pc, pc + 1 + Len(b), pc + 2 + Len(b));
  }

  lemma {:induction false} TryFlows(code: seq<Instr>, b: Stmt, hs: Handlers, f: Stmt, d: nat, v: nat, pc: nat)
    requires d >= 1 && At(code, pc, Expand(Try(b, hs, f), d, v, pc)) && Free(code, pc + Len(Try(b, hs, f)))
    ensures Free(code, pc) && Flows(code, pc, pc + Len(Try(b, hs, f)))
    decreases Try(b, hs, f), 0
  {
    hide Expand, ExpandHandlers, At, Len, LenHandlers, Flows;
    TryFacts(code, b, hs, f, pc, d, v);
    var body, catches := pc + 3, pc + 4 + Len(b);
    var finally := catches + LenHandlers(hs);
    var end := finally + 1 + Len(f);
    StmtFlows(code, f, d + 1, v, finally + 1);
    HandlersFlow(code, hs, d, v, catches, finally);
    StmtFlows(code, b, d + 1, v, body);
    FlowsOne(code, pc);
    FlowsOne(code, pc + 1);
    FlowsOne(code, pc + 2);
    FlowsOne(code, catches - 1);
    FlowsOne(code, finally);
    FlowsOne(code, end);
    FlowsBefore(code, pc, pc + 1, pc + 2);
    FlowsBefore(code, pc, pc + 2, body);
    FlowsBefore(code, pc, body, catches - 1);
    FlowsBefore(code, pc, catches - 1, catches);
    FlowsBefore(code, pc, catches, finally);
    FlowsBefore(code, pc, finally, finally + 1);
    FlowsBefore(code, pc, finally + 1, end);
    FlowsBefore(code, pc, end, end + 1);
  }

  lemma {:induction false} HandlersFlow(code: seq<Instr>, hs: Handlers, d: nat, v: nat, pc: nat, finally: nat)
    requires At(code, pc, ExpandHandlers(hs, d, v, pc, finally)) && finally == pc + LenHandlers(hs) < |code|
    requires code[finally] == CloseIfActive(d)
    ensures Handling(code, pc, d) && Flows(code, pc, finally)
    decreases hs, 1
  {
    match hs
    case NoMore =>
    case Catch(x, h, rest) => CatchFlows(code, x, h, rest, d, v, pc, finally);
    case CatchOther(bind, h) =>
      if bind { BoundFlows(code, h, d, v, pc, finally); } else { HandlerFlows(code, h, d, v, pc, finally); }
  }

  lemma {:induction false} BoundFlows(code: seq<Instr>, h: Stmt, d: nat, v: nat, pc: nat, finally: nat)
    requires At(code, pc, ExpandHandlers(CatchOther(true, h), d, v, pc, finally))
    requires finally == pc + LenHandlers(CatchOther(true, h)) < |code| && code[finally] == CloseIfActive(d)
    ensures Handling(code, pc, d) && Flows(code, pc, finally)
    decreases CatchOther(true, h), 0
  {
    BoundCode(h, d, v, pc, finally);
    hide *;
    AtFirst(code, pc, BindEx(d), ExpandHandler(h, d, d, pc + 1, finally));
    HandlerFlows(code, h, d, d, pc + 1, finally);
    BindFlows(code, pc, d);
    FlowsBefore(code, pc, pc + 1, finally);
  }

  lemma BoundCode(h: Stmt, d: nat, v: nat, pc: nat, finally: nat)
    ensures ExpandHandlers(CatchOther(true, h), d, v, pc, finally) ==
      [BindEx(d)] + ExpandHandler(h, d, d, pc + 1, finally)
    ensures LenHandlers(CatchOther(true, h)) == Len(h) + 4
  {
    hide ExpandHandler, Len;
  }

  lemma BindFlows(code: seq<Instr>, pc: nat, d: nat)
    requires pc < |code| && code[pc] == BindEx(d) && Handling(code, pc + 1, d)
    ensures Handling(code, pc, d) && Flows(code, pc, pc + 1)
  {
  }

  lemma {:induction false} CatchFlows(code: seq<Instr>, x: uint32, h: Stmt, rest: Handlers, d: nat, v: nat, pc: nat,
                                      finally: nat)
    requires At(code, pc, ExpandHandlers(Catch(x, h, rest), d, v, pc, finally))
    requires finally == pc + LenHandlers(Catch(x, h, rest)) < |code| && code[finally] == CloseIfActive(d)
    ensures Handling(code, pc, d) && Flows(code, pc, finally)
    decreases Catch(x, h, rest), 0
  {
    hide ExpandHandler, ExpandHandlers, At, Len, LenHandlers, Flows, Handling;
    CatchLayout(code, x, h, rest, pc, d, v, finally);
    var next := pc + 4 + Len(h);
    HandlerFlows(code, h, d, v, pc + 1, finally);
    HandlersFlow(code, rest, d, v, next, finally);
    HandlesItself(code, pc, d);
    FlowsOne(code, pc);
    FlowsBefore(code, pc, pc + 1, next);
    FlowsBefore(code, pc, next, finally);
  }

  lemma HandlesItself(code: seq<Instr>, pc: nat, k: nat)
    requires pc < |code| && Handled(code[pc]) == Some(k)
    ensures Handling(code, pc, k)
  {
  }

  lemma {:induction false} HandlerFlows(code: seq<Instr>, h: Stmt, d: nat, v: nat, pc: nat, finally: nat)
    requires At(code, pc, ExpandHandler(h, d, v, pc, finally)) && finally < |code|
    requires code[finally] == CloseIfActive(d)
    ensures Handling(code, pc, d) && Flows(code, pc, pc + 3 + Len(h))
    decreases h, 2
  {
    hide Expand, ExpandHandler, At, Len, Flows;
    HandlerFacts(code, h, pc, d, v, finally);
    StmtFlows(code, h, d + 1, v, pc + 2);
    FlowsOne(code, pc);
    FlowsOne(code, pc + 1);
    FlowsOne(code, pc + 2 + Len(h));
    FlowsBefore(code, pc, pc + 1, pc + 2);
    FlowsBefore(code, pc, pc + 2, pc + 2 + Len(h));
    FlowsBefore(code, pc, pc + 2 + Len(h), pc + 3 + Len(h));
  }

  // ------------------------------------------------------------------ contexts that cannot be left

  /** A context of slot k that leads to its own block when it is jumped to, and to one of S when it is closed. */
  ghost predicate Linked(code: seq<Instr>, c: Cell, k: nat, S: set<nat>) {
    k >= 1 && SetJmpReturns(code, c.jmp, k) && c.previous.Some? && c.previous.value in S
  }

  /** The slots in S hold the active context and, with each context, the one that closing it makes active. */
  ghost predicate Closed(code: seq<Instr>, m: Machine, S: set<nat>) {
    && m.uncaught == None && m.active.Some? && m.active.value in S
    && forall k {:trigger Linked(code, m.cells(k), k, S)} :: k in S ==> Linked(code, m.cells(k), k, S)
  }

  /** Where control is, no context but one in S is being handled. */
  ghost predicate HandlesOnly(code: seq<Instr>, m: Machine, S: set<nat>) {
    m.pc < |code| ==>
      match code[m.pc]
      case GotoIfEx(k, _) => m.cells(k).jmp == m.pc && (m.cells(k).ex == 0 || k in S)
      case OpenTry(k) => SetJmpReturns(code, m.cells(k).jmp, k)
      case i => Handled(i).Some? ==> Handled(i).value in S
  }

  ghost predicate Trapped(code: seq<Instr>, m: Machine, S: set<nat>) {
    Closed(code, m, S) && HandlesOnly(code, m, S)
  }

  /** A jump back to the active context. */
  lemma LongJmpTrapped(code: seq<Instr>, m: Machine, x: uint32, S: set<nat>)
    requires Closed(code, m, S)
    ensures Trapped(code, LongJmp(m, x), S)
  {
    var a := m.active.value;
    assert Linked(code, m.cells(a), a, S);
    CellChanged(code, m, LongJmp(m, x), a, S);
  }

  /** One context changes, but not where it leads to. */
  lemma CellChanged(code: seq<Instr>, m: Machine, m': Machine, k: nat, S: set<nat>)
    requires Closed(code, m, S) && m'.uncaught == None && m'.active == m.active
    requires forall j: nat :: j != k ==> m'.cells(j) == m.cells(j)
    requires k in S ==> Linked(code, m'.cells(k), k, S)
    ensures Closed(code, m', S)
  {
    forall j | j in S ensures Linked(code, m'.cells(j), j, S) {
      if j != k { assert Linked(code, m.cells(j), j, S); }
    }
  }

  /** Opening a block puts its context in front of the others. */
  lemma OpenTrapped(code: seq<Instr>, m: Machine, k: nat, S: set<nat>)
    requires Closed(code, m, S) && k >= 1 && SetJmpReturns(code, m.cells(k).jmp, k) && Free(code, m.pc + 1)
    ensures var next := m.(pc := m.pc + 1);
      Trapped(code, SetCell(next, k, m.cells(k).(previous := m.active)).(active := Some(k)), S + {k})
  {
    hide SetJmpReturns;
    var next := m.(pc := m.pc + 1);
    var m' := SetCell(next, k, m.cells(k).(previous := m.active)).(active := Some(k));
    forall j | j in S + {k} ensures Linked(code, m'.cells(j), j, S + {k}) {
      if j != k { assert Linked(code, m.cells(j), j, S); }
    }
  }

  /** setjmp, and the handler's `ex = 0`. */
  lemma SetTrapped(code: seq<Instr>, m: Machine, k: nat, c: Cell, S: set<nat>)
    requires Closed(code, m, S) && c.previous == m.cells(k).previous
    requires c.jmp == m.cells(k).jmp || SetJmpReturns(code, c.jmp, k)
    ensures Closed(code, SetCell(m.(pc := m.pc + 1), k, c), S)
  {
    hide SetJmpReturns;
    if k in S { assert Linked(code, m.cells(k), k, S); }
    CellChanged(code, m, SetCell(m.(pc := m.pc + 1), k, c), k, S);
  }

  /** Closing a context of S makes another one of S active. */
  lemma CloseTrapped(code: seq<Instr>, m: Machine, k: nat, S: set<nat>)
    requires Closed(code, m, S) && k in S && Free(code, m.pc + 1)
    ensures Trapped(code, m.(pc := m.pc + 1, active := m.cells(k).previous), S)
  {
    hide SetJmpReturns;
    assert Linked(code, m.cells(k), k, S);
  }

  lemma ClosedAt(code: seq<Instr>, m: Machine, pc: nat, vars: nat -> uint16, t: Trace, S: set<nat>)
    requires Closed(code, m, S)
    ensures Closed(code, m.(pc := pc, vars := vars, t := t), S)
  {
  }

  lemma FreeHandles(code: seq<Instr>, m: Machine, k: nat, S: set<nat>)
    ensures Free(code, m.pc) ==> HandlesOnly(code, m, S)
    ensures k in S && Handling(code, m.pc, k) ==> HandlesOnly(code, m, S)
  {
  }

  /** Whatever the machine does, it does not get out. */
  lemma StepTrapped(code: seq<Instr>, m: Machine, S: set<nat>) returns (S': set<nat>)
    requires Flows(code, 0, |code|) && Trapped(code, m, S)
    ensures Trapped(code, Step(code, m), S')
  {
    S' := S;
    if m.pc < |code| {
      assert FlowsAt(code, m.pc);
      var m' := Step(code, m);
      ClosedAt(code, m, m'.pc, m'.vars, m'.t, S);
      hide Closed, Linked, Flows, SetJmpReturns;
      match code[m.pc] {
        case ThrowI(x) => LongJmpTrapped(code, m, x, S);
        case ThrowVar(k) => LongJmpTrapped(code, m, m.vars(k), S);
        case EndTry(k) =>
          FreeHandles(code, m', k, S);
          if m.cells(k).ex != 0 { LongJmpTrapped(code, m, m.cells(k).ex, S); }
        case OpenTry(k) =>
          S' := S + {k};
          OpenTrapped(code, m, k, S);
        case SetJmp(k) => SetTrapped(code, m, k, m.cells(k).(jmp := m.pc + 1, ex := 0), S);
        case ClearEx(k) =>
          SetTrapped(code, m, k, m.cells(k).(ex := 0), S);
          FreeHandles(code, m', k, S);
        case CloseTry(k) => CloseTrapped(code, m, k, S);
        case CloseIfActive(k) =>
          FreeHandles(code, m', k, S);
          if m.active == Some(k) { CloseTrapped(code, m, k, S); }
        case Goto(_) => FreeHandles(code, m', 0, S);
        case GotoUnless(_, _) => FreeHandles(code, m', 0, S);
        case Do(_) => FreeHandles(code, m', 0, S);
        case GotoIfEx(k, _) => FreeHandles(code, m', k, S);
        case GotoIfExNot(k, _, _) => FreeHandles(code, m', k, S);
        case BindEx(k) => FreeHandles(code, m', k, S);
      }
    }
  }

  lemma {:induction false} RunTrapped(code: seq<Instr>, m: Machine, S: set<nat>, n: nat) returns (S': set<nat>)
    requires Flows(code, 0, |code|) && Trapped(code, m, S)
    ensures Trapped(code, Run(code, m, n), S')
    decreases n
  {
    S' := S;
    if n > 0 {
      hide Trapped, Step;
      S' := StepTrapped(code, m, S);
      S' := RunTrapped(code, Step(code, m), S', n - 1);
    }
  }

  lemma ReopenedIsTrapped(code: seq<Instr>, m: Machine, k: nat)
    requires Flows(code, 0, |code|) && Reopened(code, m, k) && k >= 1
    ensures Trapped(code, m, {k})
  {
    assert FlowsAt(code, m.pc - 1);
  }

  // ------------------------------------------------------------------ whole programs

  /** Every program behaves on the machine as structured exceptions do, in whatever context it is started
      and whatever is in the unused part of the stack: the same effects, the same outcome, and the active
      context at the end is the one at the start. If an exception delivered as 0 comes to a TRY, the machine
      gets there with the same effects, and opens the block again. */
  lemma MachineRefinesStructure(s: Stmt, m: Machine, fuel: nat)
    requires InFrame(m, 1, 0) && m.pc == 0
    ensures exists n: nat :: RunEnds(Expand(s, 1, 0, 0), m, n, Exec(s, m.t, m.vars(0), fuel), 1, Len(s), fuel)
  {
    hide Run, Exec, Expand, Len, RunEnds;
    var code := Expand(s, 1, 0, 0);
    assert At(code, 0, code);
    var n := Sim(code, s, m, 1, 0, fuel);
    assert RunEnds(code, m, n, Exec(s, m.t, m.vars(0), fuel), 1, Len(s), fuel);
  }

  lemma {:induction false} StopsForGood(code: seq<Instr>, m: Machine, n: nat)
    requires !Running(code, m)
    ensures Run(code, m, n) == m
  {
    if n > 0 { StopsForGood(code, m, n - 1); }
  }

  /** The program starts at the beginning, with nothing of its own on the stack; if it is run in a context, that
      context's setjmp is outside the program. */
  ghost predicate Starts(s: Stmt, m: Machine) {
    InFrame(m, 1, 0) && m.pc == 0 && (m.active.Some? ==> m.cells(m.active.value).jmp >= Len(s))
  }

  /** The machine leaves the program with the context that was active at the start. */
  ghost predicate Returns(s: Stmt, m: Machine) {
    exists n: nat :: ReturnsAfter(s, m, n)
  }

  ghost predicate ReturnsAfter(s: Stmt, m: Machine, n: nat) {
    var m' := Run(Expand(s, 1, 0, 0), m, n);
    !Running(Expand(s, 1, 0, 0), m') && m'.active == m.active
  }

  /** The structured run ends, and no exception delivered as 0 has come to a TRY. */
  ghost predicate Finishes(s: Stmt, t: Trace, e: uint16) {
    exists fuel: nat :: Exec(s, t, e, fuel).Normal? || Exec(s, t, e, fuel).Raised?
  }

  /** A finished run, on the machine. */
  lemma FinishedReturns(s: Stmt, m: Machine, n: nat, o: Outcome, fuel: nat)
    requires Starts(s, m) && (o.Normal? || o.Raised?) && RunEnds(Expand(s, 1, 0, 0), m, n, o, 1, Len(s), fuel)
    ensures ReturnsAfter(s, m, n) && Run(Expand(s, 1, 0, 0), m, n).t == o.t
  {
    hide Run, Expand, Len;
    assert |Expand(s, 1, 0, 0)| == Len(s);
  }

  /** Once an exception delivered as 0 has come to a TRY, the machine never leaves the program with the context it
      was started with: not before, because it is still running, and not later, because its contexts lead only to
      each other. */
  lemma LostNeverReturns(s: Stmt, m: Machine, n: nat, t: Trace, fuel: nat, n': nat)
    requires Starts(s, m) && RunEnds(Expand(s, 1, 0, 0), m, n, Lost(t), 1, Len(s), fuel)
    ensures !ReturnsAfter(s, m, n')
  {
    hide Run, Expand, Len;
    var code := Expand(s, 1, 0, 0);
    assert |code| == Len(s) && At(code, 0, code);
    StmtFlows(code, s, 1, 0, 0);
    var m1 := Run(code, m, n);
    var k := m1.active.value;
    if n' < n {
      RunAdd(code, m, n', n - n');
      if !Running(code, Run(code, m, n')) { StopsForGood(code, Run(code, m, n'), n - n'); }
    } else {
      ReopenedIsTrapped(code, m1, k);
      var S := RunTrapped(code, m1, {k}, n' - n);
      RunAdd(code, m, n, n' - n);
      TrappedInside(code, Run(code, m, n'), S);
    }
  }

  lemma TrappedInside(code: seq<Instr>, m: Machine, S: set<nat>)
    requires Trapped(code, m, S)
    ensures m.active.Some? && m.active.value >= 1
  {
    assert Linked(code, m.cells(m.active.value), m.active.value, S);
  }

  lemma TimeoutStillRuns(s: Stmt, m: Machine, n: nat, fuel: nat, n': nat)
    requires RunEnds(Expand(s, 1, 0, 0), m, n, Timeout, 1, Len(s), fuel) && n' < fuel
    ensures !ReturnsAfter(s, m, n')
  {
    hide Run, Expand, Len;
    var code := Expand(s, 1, 0, 0);
    RunAdd(code, m, n', n - n');
    if !Running(code, Run(code, m, n')) { StopsForGood(code, Run(code, m, n'), n - n'); }
  }

  /** Exactly the programs whose structured run ends, with no exception delivered as 0 coming to a TRY on the way,
      are left by the machine with the context that was active at the start; by MachineRefinesStructure it then is
      as the structured run says. */
  lemma ReturnsIff(s: Stmt, m: Machine)
    requires Starts(s, m)
    ensures Returns(s, m) <==> Finishes(s, m.t, m.vars(0))
  {
    hide Exec, Expand, Run, Len, RunEnds, ReturnsAfter;
    if Finishes(s, m.t, m.vars(0)) {
      var fuel: nat :| Exec(s, m.t, m.vars(0), fuel).Normal? || Exec(s, m.t, m.vars(0), fuel).Raised?;
      NotLostReturns(s, m, fuel);
    }
    if Returns(s, m) {
      var n: nat :| ReturnsAfter(s, m, n);
      var o := Exec(s, m.t, m.vars(0), n + 1);
      MachineRefinesStructure(s, m, n + 1);
      var n': nat :| RunEnds(Expand(s, 1, 0, 0), m, n', o, 1, Len(s), n + 1);
      if o.Timeout? { TimeoutStillRuns(s, m, n', n + 1, n); }
      if o.Lost? { LostNeverReturns(s, m, n', o.t, n + 1, n); }
    }
  }

  lemma NotLostReturns(s: Stmt, m: Machine, fuel: nat)
    requires Starts(s, m) && (Exec(s, m.t, m.vars(0), fuel).Normal? || Exec(s, m.t, m.vars(0), fuel).Raised?)
    ensures Returns(s, m)
  {
    hide Exec, Expand, Run, Len, RunEnds, ReturnsAfter;
    var o := Exec(s, m.t, m.vars(0), fuel);
    MachineRefinesStructure(s, m, fuel);
    var n: nat :| RunEnds(Expand(s, 1, 0, 0), m, n, o, 1, Len(s), fuel);
    FinishedReturns(s, m, n, o, fuel);
  }

  /** For a structured run that is not cut short by its fuel: the machine leaves the program with its context exactly
      if no exception delivered as 0 has come to a TRY. */
  lemma ReturnsUnlessLost(s: Stmt, m: Machine, fuel: nat)
    requires Starts(s, m) && !Exec(s, m.t, m.vars(0), fuel).Timeout?
    ensures Returns(s, m) <==> !Exec(s, m.t, m.vars(0), fuel).Lost?
  {
    hide Exec, Expand, Run, Len, RunEnds, ReturnsAfter;
    var o := Exec(s, m.t, m.vars(0), fuel);
    if o.Lost? {
      MachineRefinesStructure(s, m, fuel);
      var n: nat :| RunEnds(Expand(s, 1, 0, 0), m, n, o, 1, Len(s), fuel);
      forall n': nat ensures !ReturnsAfter(s, m, n') {
        LostNeverReturns(s, m, n, o.t, fuel, n');
      }
    } else {
      NotLostReturns(s, m, fuel);
    }
  }

  // ------------------------------------------------------------------ what programs do

  /** The number that a handler sees, for a thrown one that is not delivered as 0. */
  lemma CaughtNumber(x: uint32, f: Stmt, t: Trace, e: uint16, fuel: nat)
    requires x == 0 || x % 0x1_0000 != 0
    ensures Exec(Try(Throw(x), CatchOther(true, ThrowCaught), f), t, e, fuel)
         == Raised(if x == 0 then 1 else x % 0x1_0000, t)
  {
    var n := if x == 0 then 1 else x % 0x1_0000;
    assert Exec(Throw(x), t, e, fuel) == Raised(n, t);
    assert Exec(ThrowCaught, t, n, fuel) == Raised(n, t);
    assert ExecHandlers(CatchOther(true, ThrowCaught), n, t, e, fuel) == Some(Raised(n, t));
  }

  /** CATCH(y) takes it exactly if it is that number, and FINALLY runs in both cases. */
  lemma CatchTakesIff(x: uint32, y: uint32, a: int, b: int, t: Trace, e: uint16, fuel: nat)
    requires x == 0 || x % 0x1_0000 != 0
    ensures var n := if x == 0 then 1 else x % 0x1_0000;
      Exec(Try(Throw(x), Catch(y, Act(a), NoMore), Act(b)), t, e, fuel)
        == if y == n then Normal(t + [a] + [b]) else Raised(n, t + [b])
  {
    var n := if x == 0 then 1 else x % 0x1_0000;
    assert Exec(Throw(x), t, e, fuel) == Raised(n, t);
    assert ExecHandlers(NoMore, n, t, e, fuel) == None;
    assert ExecHandlers(Catch(y, Act(a), NoMore), n, t, e, fuel) == if n == y then Some(Normal(t + [a])) else None;
  }

  /** A handler's own throw goes outward, without FINALLY, and is not taken by a clause of the same block. */
  lemma HandlerThrows(x: uint32, y: uint32, rest: Handlers, f: Stmt, t: Trace, e: uint16, fuel: nat)
    requires x == 0 || x % 0x1_0000 != 0
    ensures var n := if x == 0 then 1 else x % 0x1_0000;
      Exec(Try(Throw(x), Catch(n, Throw(y), rest), f), t, e, fuel) == Raised(if y == 0 then 1 else y % 0x1_0000, t)
  {
    var n := if x == 0 then 1 else x % 0x1_0000;
    assert Exec(Throw(x), t, e, fuel) == Raised(n, t);
    assert ExecHandlers(Catch(n, Throw(y), rest), n, t, e, fuel) == Some(Exec(Throw(y), t, e, fuel));
  }

  /** A throw in FINALLY takes the place of the one that is on its way. */
  lemma FinallyThrows(x: uint32, y: uint32, t: Trace, e: uint16, fuel: nat)
    requires x == 0 || x % 0x1_0000 != 0
    ensures Exec(Try(Throw(x), NoMore, Throw(y)), t, e, fuel) == Raised(if y == 0 then 1 else y % 0x1_0000, t)
  {
    assert ExecHandlers(NoMore, if x == 0 then 1 else x % 0x1_0000, t, e, fuel) == None;
  }

  /** The CATCH clauses in order. */
  function Clauses(hs: Handlers): seq<(uint32, Stmt)> {
    match hs
    case Catch(y, h, rest) => [(y, h)] + Clauses(rest)
    case _ => []
  }

  /** What stands behind them. */
  function Behind(hs: Handlers): Handlers {
    match hs
    case Catch(_, _, rest) => Behind(rest)
    case _ => hs
  }

  /** The first clause for an exception takes it; without one, a CATCH_OTHER or CATCH_ALL does, if there is any. */
  lemma {:induction false} FirstClauseTakes(hs: Handlers, x: uint16, i: nat, t: Trace, e: uint16, fuel: nat)
    requires i <= |Clauses(hs)| && forall j :: 0 <= j < i ==> Clauses(hs)[j].0 != x
    ensures i < |Clauses(hs)| && Clauses(hs)[i].0 == x ==>
              ExecHandlers(hs, x, t, e, fuel) == Some(Exec(Clauses(hs)[i].1, t, e, fuel))
    ensures i == |Clauses(hs)| ==>
              ExecHandlers(hs, x, t, e, fuel) ==
                match Behind(hs)
                case CatchOther(bind, h) => Some(Exec(h, t, if bind then x else e, fuel))
                case _ => None
  {
    match hs
    case Catch(y, h, rest) =>
      if i > 0 {
        assert Clauses(hs)[0].0 == y;
        forall j | 0 <= j < i - 1 ensures Clauses(rest)[j].0 != x { assert Clauses(hs)[j + 1] == Clauses(rest)[j]; }
        FirstClauseTakes(rest, x, i - 1, t, e, fuel);
      }
    case _ =>
  }

  // ------------------------------------------------------------------ exceptions that do not fit

  /** No THROW of the program, performed or not, is delivered as 0, the value that means "no exception". */
  predicate Deliverable(s: Stmt) {
    match s
    case Throw(x) => Delivered(x) != 0
    case Seq(s1, s2) => Deliverable(s1) && Deliverable(s2)
    case If(_, s1, s2) => Deliverable(s1) && Deliverable(s2)
    case While(_, b) => Deliverable(b)
    case Try(b, hs, f) => Deliverable(b) && DeliverableHandlers(hs) && Deliverable(f)
    case _ => true
  }

  predicate DeliverableHandlers(hs: Handlers) {
    match hs
    case NoMore => true
    case Catch(_, h, rest) => Deliverable(h) && DeliverableHandlers(rest)
    case CatchOther(_, h) => Deliverable(h)
  }

  /** Such a program is never lost, whatever its conditions do. */
  lemma {:induction false} DeliverableIsNotLost(s: Stmt, t: Trace, e: uint16, fuel: nat)
    requires Deliverable(s)
    ensures var o := Exec(s, t, e, fuel); !o.Lost? && (o.Raised? ==> o.x != 0)
    decreases fuel, s
  {
    match s
    case Seq(s1, s2) =>
      DeliverableIsNotLost(s1, t, e, fuel);
      var o := Exec(s1, t, e, fuel);
      if o.Normal? { DeliverableIsNotLost(s2, o.t, e, fuel); }
    case If(c, s1, s2) =>
      DeliverableIsNotLost(if c(t) then s1 else s2, t, e, fuel);
    case While(c, b) =>
      if c(t) && fuel > 0 {
        DeliverableIsNotLost(b, t, e, fuel - 1);
        var o := Exec(b, t, e, fuel - 1);
        if o.Normal? { DeliverableIsNotLost(s, o.t, e, fuel - 1); }
      }
    case Try(b, hs, f) =>
      DeliverableIsNotLost(b, t, e, fuel);
      ExecTry(b, hs, f, t, e, fuel);
      UpToFinallyIs(b, hs, t, e, fuel);
      var o := Exec(b, t, e, fuel);
      if o.Raised? { HandlersNotLost(hs, o.x, o.t, e, fuel); }
      var (o', ex) := UpToFinally(b, hs, t, e, fuel);
      if o'.Normal? { DeliverableIsNotLost(f, o'.t, e, fuel); }
    case _ =>
  }

  lemma {:induction false} HandlersNotLost(hs: Handlers, x: uint16, t: Trace, e: uint16, fuel: nat)
    requires DeliverableHandlers(hs)
    ensures match ExecHandlers(hs, x, t, e, fuel)
      case None => true
      case Some(o) => !o.Lost? && (o.Raised? ==> o.x != 0)
    decreases fuel, hs
  {
    match hs
    case NoMore =>
    case Catch(_, h, rest) =>
      DeliverableIsNotLost(h, t, e, fuel);
      HandlersNotLost(rest, x, t, e, fuel);
    case CatchOther(bind, h) =>
      DeliverableIsNotLost(h, t, if bind then x else e, fuel);
  }

  /** TRY { THROW(x) } CATCH_ALL {} FINALLY {} */
  function ThrowAndCatch(x: uint32): Stmt {
    Try(Throw(x), CatchOther(false, Skip), Skip)
  }

  ghost predicate Stops(s: Stmt, m: Machine) {
    exists n: nat :: !Running(Expand(s, 1, 0, 0), Run(Expand(s, 1, 0, 0), m, n))
  }

  /** os_longjmp takes 32 bits and `ex` keeps 16 of them: an exception whose low half is zero (other than 0
      itself) is delivered as "no exception", and this block runs its body again, for ever. */
  lemma ThrowNeedsLowBits(x: uint32, m: Machine)
    requires Starts(ThrowAndCatch(x), m)
    ensures Stops(ThrowAndCatch(x), m) <==> x == 0 || x % 0x1_0000 != 0
  {
    var s := ThrowAndCatch(x);
    var code := Expand(s, 1, 0, 0);
    if Delivered(x) != 0 {
      assert Exec(s, m.t, m.vars(0), 0).Normal?;
      hide Exec, Expand, Run, Running;
      NotLostReturns(s, m, 0);
      var n: nat :| ReturnsAfter(s, m, n);
    } else {
      ThrowAndCatchCode(x);
      forall n: nat ensures Running(code, Run(code, m, n)) {
        RunsAgain(code, x, m, n);
      }
    }
  }

  lemma ThrowAndCatchCode(x: uint32)
    ensures var code := Expand(ThrowAndCatch(x), 1, 0, 0);
      |code| == 10 && code[0] == SetJmp(1) && code[1] == GotoIfEx(1, 5) && code[2] == OpenTry(1) && code[3] == ThrowI(x)
  {
    var code := Expand(ThrowAndCatch(x), 1, 0, 0);
    TryFacts(code, Throw(x), CatchOther(false, Skip), Skip, 0, 1, 0) by { assert At(code, 0, code); }
    assert code[3 + 0] == Expand(Throw(x), 2, 0, 3)[0];
  }

  lemma {:induction false} RunsAgain(code: seq<Instr>, x: uint32, m: Machine, n: nat)
    requires Delivered(x) == 0 && m.uncaught == None && |code| > 3
    requires code[0] == SetJmp(1) && code[1] == GotoIfEx(1, 5) && code[2] == OpenTry(1) && code[3] == ThrowI(x)
    requires m.pc <= 3 && (m.pc >= 1 ==> m.cells(1).jmp == 1 && m.cells(1).ex == 0)
    requires m.pc == 3 ==> m.active == Some(1)
    ensures Running(code, Run(code, m, n))
    decreases n
  {
    if n > 0 { RunsAgain(code, x, Step(code, m), n - 1); }
  }

  /** Nothing more than one action has been done. */
  predicate FirstTime(t: Trace) { |t| < 2 }

  /** A block that throws such an exception the first time only. */
  function ThrowOnce(): Stmt {
    Try(ThrowOnceBody(), CatchOther(false, Skip), Skip)
  }

  function ThrowOnceBody(): Stmt {
    Seq(Act(1), If(FirstTime, Throw(0x1_0000), Skip))
  }

  lemma ThrowOnceBodyCode(code: seq<Instr>)
    requires At(code, 3, Expand(ThrowOnceBody(), 2, 0, 3))
    ensures |code| >= 7 && code[3] == Do(1) && code[4] == GotoUnless(FirstTime, 7) && code[5] == ThrowI(0x1_0000)
    ensures Len(ThrowOnceBody()) == 4
  {
    var s1 := If(FirstTime, Throw(0x1_0000), Skip);
    OneLen(1, 0x1_0000);
    hide Expand, Len, At;
    SeqFacts(code, Act(1), s1, 3, 2, 0);
    ExpandIf(FirstTime, Throw(0x1_0000), Skip, 2, 0, 4);
    AtOne(code, 3, Do(1));
    IfLayout(code, FirstTime, Throw(0x1_0000), Skip, 4, 2, 0);
    AtOne(code, 5, ThrowI(0x1_0000));
  }

  lemma OneLen(a: int, x: uint32)
    ensures Len(Act(a)) == 1 && Len(Throw(x)) == 1 && Len(Skip) == 0
    ensures Expand(Act(a), 2, 0, 3) == [Do(a)] && Expand(Throw(x), 2, 0, 5) == [ThrowI(x)]
  {
  }

  lemma ThrowOnceCode()
    ensures var code := Expand(ThrowOnce(), 1, 0, 0);
      && |code| == 13 && code[0] == SetJmp(1) && code[1] == GotoIfEx(1, 8) && code[2] == OpenTry(1) && code[3] == Do(1)
      && code[4] == GotoUnless(FirstTime, 7) && code[5] == ThrowI(0x1_0000)
      && code[7] == Goto(11) && code[11] == CloseIfActive(1) && code[12] == EndTry(1)
  {
    hide *;
    var b, hs := ThrowOnceBody(), CatchOther(false, Skip);
    ThrowOnceIs();
    WholeCode(Try(b, hs, Skip));
    var code := Expand(Try(b, hs, Skip), 1, 0, 0);
    TryFacts(code, b, hs, Skip, 0, 1, 0);
    ThrowOnceBodyCode(code);
  }

  lemma ThrowOnceIs()
    ensures ThrowOnce() == Try(ThrowOnceBody(), CatchOther(false, Skip), Skip)
    ensures LenHandlers(CatchOther(false, Skip)) == 3 && Len(Skip) == 0
  {
  }

  lemma WholeCode(s: Stmt)
    ensures At(Expand(s, 1, 0, 0), 0, Expand(s, 1, 0, 0)) && |Expand(s, 1, 0, 0)| == Len(s)
  {
    hide Expand, Len;
  }

  lemma ThrowOnceExec(e: uint16, fuel: nat)
    ensures Exec(ThrowOnce(), [], e, fuel) == Lost([1])
  {
    var body := ThrowOnceBody();
    ExecSeq(Act(1), If(FirstTime, Throw(0x1_0000), Skip), [], e, fuel);
    ExecIf(FirstTime, Throw(0x1_0000), Skip, [1], e, fuel);
    assert [] + [1] == [1];
    assert Exec(Act(1), [], e, fuel) == Normal([1]) && Exec(Throw(0x1_0000), [1], e, fuel) == Raised(0, [1]);
    hide Exec;
    ExecTry(body, CatchOther(false, Skip), Skip, [], e, fuel);
    UpToFinallyIs(body, CatchOther(false, Skip), [], e, fuel);
  }

  /** The block ends normally after all, but its own context stays the active one: opened twice, it has become its
      own outer context, so FINALLY does not close it. */
  lemma ContextLeftActive(m: Machine, fuel: nat)
    requires Starts(ThrowOnce(), m) && m.t == []
    ensures Exec(ThrowOnce(), m.t, m.vars(0), fuel) == Lost([1])
    ensures var code := Expand(ThrowOnce(), 1, 0, 0);
      var m' := Run(code, m, 13);
      !Running(code, m') && m'.uncaught == None && m'.pc == |code| && m'.t == [1, 1] && m'.active == Some(1) != m.active
  {
    hide Exec, Run, Expand, ThrowOnce, Len;
    ThrowOnceExec(m.vars(0), fuel);
    ThrowOnceCode();
    var code := Expand(ThrowOnce(), 1, 0, 0);
    assert [1] + [1] == [1, 1];
    ThrowOnceFirst(code, m);
    ThrowOnceSecond(code, Run(code, m, 6));
    RunAdd(code, m, 6, 7);
  }

  lemma ThrowOnceFirst(code: seq<Instr>, m: Machine)
    requires m.uncaught == None && m.pc == 0 && m.t == [] && |code| == 13
    requires code[0] == SetJmp(1) && code[1] == GotoIfEx(1, 8) && code[2] == OpenTry(1) && code[3] == Do(1)
    requires code[4] == GotoUnless(FirstTime, 7) && code[5] == ThrowI(0x1_0000)
    ensures var m' := Run(code, m, 6);
      m'.uncaught == None && m'.pc == 1 && m'.t == [1] && m'.active == Some(1) && m'.cells(1).ex == 0
  {
    var m3 := Step(code, Step(code, Step(code, m)));
    BlockEntered(code, m.(active := None), 1, 0, 8);
    assert m3.pc == 3 && m3.t == [] && m3.active == Some(1) && m3.cells(1).jmp == 1 && m3.uncaught == None;
    var m6 := Step(code, Step(code, Step(code, m3)));
    assert m6.pc == 1;
    assert Run(code, m6, 0) == m6;
    FirstStep(code, Step(code, Step(code, m3)), 0);
    FirstStep(code, Step(code, m3), 1);
    FirstStep(code, m3, 2);
    FirstStep(code, Step(code, Step(code, m)), 3);
    FirstStep(code, Step(code, m), 4);
    FirstStep(code, m, 5);
    hide Run;
  }

  lemma ThrowOnceSecond(code: seq<Instr>, m: Machine)
    requires m.uncaught == None && m.pc == 1 && m.t == [1] && m.active == Some(1) && m.cells(1).ex == 0
    requires |code| == 13 && code[1] == GotoIfEx(1, 8) && code[2] == OpenTry(1) && code[3] == Do(1)
    requires code[4] == GotoUnless(FirstTime, 7) && code[7] == Goto(11)
    requires code[11] == CloseIfActive(1) && code[12] == EndTry(1)
    ensures var m' := Run(code, m, 7);
      m'.uncaught == None && m'.pc == 13 && m'.t == [1] + [1] && m'.active == Some(1)
  {
    var m3 := Step(code, Step(code, Step(code, m)));
    assert m3.pc == 4 && m3.t == [1] + [1] && m3.active == Some(1) && m3.cells(1).previous == Some(1)
           && m3.cells(1).ex == 0;
    var m5 := Step(code, Step(code, m3));
    assert m5.pc == 11 && m5.t == m3.t && m5.active == m3.active && m5.cells == m3.cells;
    var m7 := Step(code, Step(code, m5));
    assert m7.pc == 13;
    assert Run(code, m7, 0) == m7;
    FirstStep(code, Step(code, m5), 0);
    FirstStep(code, m5, 1);
    FirstStep(code, Step(code, m3), 2);
    FirstStep(code, m3, 3);
    FirstStep(code, Step(code, Step(code, m)), 4);
    FirstStep(code, Step(code, m), 5);
    FirstStep(code, m, 6);
    hide Run;
  }
}
