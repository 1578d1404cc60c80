/** The abstract SCPI error queue: what `error.c` is meant to keep, without its ring buffer and its heap. */
module ErrorQueue {
  import opened Base
  import opened InfoHeap
  import opened Status
  import opened StatusRuns
  import opened ErrorCodes

  /** An error with the device-dependent text that was kept for it. */
  datatype Err = Err(code: Code, text: Option<string>)

  const NO_ERROR := Err(0, None)

  /** The texts held for a queue, oldest first. */
  function Texts(q: seq<Err>): seq<string> {
    if q == [] then []
    else (if q[0].text.Some? then [q[0].text.value] else []) + Texts(q[1..])
  }

  lemma {:induction false} TextsAppend(a: seq<Err>, b: seq<Err>)
    ensures Texts(a + b) == Texts(a) + Texts(b)
  {
    if a == [] {
      assert a + b == b;
    } else {
      assert (a + b)[1..] == a[1..] + b;
      TextsAppend(a[1..], b);
    }
  }

  /** The heap bytes a queue occupies. */
  function Cost(q: seq<Err>): nat {
    |Packed(Texts(q))|
  }

  /** The ESR bit an error code sets. The row 1..32767 of the table is tested as `err <= 1 && err >= 32767`. */
  function EsrBit(code: Code): Option<nat> {
    if -199 <= code <= -100 then Some(5)
    else if -299 <= code <= -200 then Some(4)
    else if -399 <= code <= -300 then Some(3)
    else if -499 <= code <= -400 then Some(2)
    else if -599 <= code <= -500 then Some(7)
    else if -699 <= code <= -600 then Some(6)
    else if -799 <= code <= -700 then Some(1)
    else if -899 <= code <= -800 then Some(0)
    else None
  }

  /** The queue, the room of the text heap, the registers, and the enable registers as the events last saw them. */
  datatype State = State(size: nat, room: nat, queue: seq<Err>, regs: Regs, snap: Snap)

  /** The text is kept when it is not empty and fits with its NUL beside the texts of the queue. */
  function Kept(room: nat, q: seq<Err>, text: Option<string>): Option<string> {
    if text.Some? && text.value != "" && Cost(q) + |text.value| + 1 <= room then text else None
  }

  /**
   What a push makes of the queue: a full queue keeps its older entries and gives up its newest for the overflow
   error.
   */
  function Enqueue(size: nat, room: nat, q: seq<Err>, code: Code, text: Option<string>): seq<Err> {
    if |q| < size then q + [Err(code, Kept(room, q, text))]
    else if size == 0 || q == [] then q
    else q[..|q| - 1] + [Err(QUEUE_OVERFLOW, None)]
  }

  function Record(s: State, regs: Regs): State {
    s.(regs := regs, snap := SnapAfter(s.snap, s.regs, regs))
  }

  function SetEsr(r: Regs, code: Code): Regs {
    match EsrBit(code)
    case None => r
    case Some(b) => RegSet(r, ESR, r.esr + {b})
  }

  function Emit(r: Regs): Regs {
    RegSet(r, STB, r.stb + {STB_QMA})
  }

  /** `SCPI_ErrorEmitEmpty`. */
  function EmitEmpty(q: seq<Err>, r: Regs): Regs {
    if q == [] && STB_QMA in r.stb then RegSet(r, STB, r.stb - {STB_QMA}) else r
  }

  datatype Step =
    | Push(code: Code, text: Option<string>)
    | Next
    | Clear
    | Cls
    | Write(name: Reg, val: Bits)

  predicate Allowed(step: Step) {
    step.Write? ==> step.name != STB
  }

  /** One public operation. */
  function Apply(s: State, step: Step): State {
    match step
    case Push(code, text) =>
      var s1 := Record(s, SetEsr(s.regs, code));
      s1.(queue := Enqueue(s.size, s.room, s.queue, code, text), regs := Emit(s1.regs))
    case Next =>
      var q := if s.queue == [] then [] else s.queue[1..];
      s.(queue := q, regs := EmitEmpty(q, s.regs))
    case Clear => s.(queue := [], regs := EmitEmpty([], s.regs))
    case Cls =>
      var s1 := s.(queue := [], regs := EmitEmpty([], s.regs));
      var s2 := Record(s1, RegSet(s1.regs, ESR, {}));
      var s3 := Record(s2, RegSet(s2.regs, OPER, {}));
      Record(s3, RegSet(s3.regs, QUES, {}))
    case Write(name, val) => Record(s, RegSet(s.regs, name, val))
  }

  function Run(s: State, steps: seq<Step>): State
    decreases steps
  {
    if steps == [] then s else Run(Apply(s, steps[0]), steps[1..])
  }

  function Init(size: nat, room: nat): State {
    State(size, room, [], RESET, Snap({}, {}, {}))
  }

  /** Everything that holds between two operations. */
  predicate Inv(s: State) {
    && |s.queue| <= s.size
    && Cost(s.queue) <= s.room
    && Storable(Texts(s.queue))
    && Consistent(s.regs, s.snap)
    && (STB_QMA in s.regs.stb <==> s.queue != [])
  }

  /** Texts come from C strings. */
  predicate TextStep(step: Step) {
    step.Push? && step.text.Some? ==> NUL !in step.text.value
  }

  /**
   A push keeps the bounds of the queue and its texts, and every older error: all of them, or all but the newest when
   full.
   */
  lemma EnqueueKeeps(size: nat, room: nat, q: seq<Err>, code: Code, text: Option<string>)
    requires |q| <= size && Cost(q) <= room && Storable(Texts(q))
    requires text.Some? ==> NUL !in text.value
    ensures var q' := Enqueue(size, room, q, code, text);
      |q'| <= size && Cost(q') <= room && Storable(Texts(q')) && (size > 0 ==> q' != [])
    ensures var q' := Enqueue(size, room, q, code, text);
      if |q| < size then |q'| == |q| + 1 && q'[..|q|] == q && q'[|q|].code == code
      else |q'| == |q| && (size > 0 ==> q'[..size - 1] == q[..size - 1] && q'[size - 1] == Err(QUEUE_OVERFLOW, None))
  {
    if |q| < size {
      var e := Err(code, Kept(room, q, text));
      TextsAppend(q, [e]);
      PackedAppend(Texts(q), Texts([e]));
      assert Texts([e]) == if e.text.Some? then [e.text.value] else [];
      if e.text.Some? {
        assert Packed([e.text.value]) == e.text.value + [NUL];
      }
    } else if size > 0 {
      var front, last, e := q[..|q| - 1], [q[|q| - 1]], Err(QUEUE_OVERFLOW, None);
      assert q == front + last;
      TextsAppend(front, last);
      assert Texts(q) == Texts(front) + Texts(last);
      PackedAppend(Texts(front), Texts(last));
      TextsAppend(front, [e]);
      assert Texts(front + [e]) == Texts(front);
      assert forall s | s in Texts(front) :: s in Texts(q);
    }
  }

  /** A text takes its characters and one byte more; errors without a text take nothing. */
  lemma CostGrows(q: seq<Err>, e: Err)
    ensures Cost(q + [e]) == Cost(q) + if e.text.Some? then |e.text.value| + 1 else 0
    ensures Cost([]) == 0
  {
    TextsAppend(q, [e]);
    PackedAppend(Texts(q), Texts([e]));
    assert Texts([e]) == if e.text.Some? then [e.text.value] else [];
    if e.text.Some? {
      assert Packed([e.text.value]) == e.text.value + [NUL];
    }
  }

  function Nexts(n: nat): seq<Step> {
    seq(n, _ => Next)
  }

  lemma {:induction false} NextsDrop(s: State, n: nat)
    requires n <= |s.queue|
    ensures Run(s, Nexts(n)).queue == s.queue[n..]
    decreases n
  {
    if n > 0 {
      assert Nexts(n)[1..] == Nexts(n - 1);
      NextsDrop(Apply(s, Next), n - 1);
    }
  }

  /**
   What is pushed comes out behind the errors before it, with its code, and with its text exactly when that is not empty
   and fits with its NUL beside the texts that are held.
   */
  lemma PushedComesOut(s: State, code: Code, text: Option<string>)
    requires |s.queue| < s.size
    ensures var fits := text.Some? && text.value != "" && Cost(s.queue) + |text.value| + 1 <= s.room;
      Run(Apply(s, Push(code, text)), Nexts(|s.queue|)).queue == [Err(code, if fits then text else None)]
  {
    NextsDrop(Apply(s, Push(code, text)), |s.queue|);
  }

  /** In a full queue the newest error gives way to error -350. */
  lemma OverflowComesOut(s: State, code: Code, text: Option<string>)
    requires |s.queue| == s.size > 0
    ensures Run(Apply(s, Push(code, text)), Nexts(s.size - 1)).queue == [Err(-350, None)]
    ensures Apply(s, Push(code, text)).queue[..s.size - 1] == s.queue[..s.size - 1]
  {
    NextsDrop(Apply(s, Push(code, text)), s.size - 1);
  }

  lemma EmitEmptyKeeps(q: seq<Err>, r: Regs, snap: Snap)
    requires Consistent(r, snap)
    ensures var r' := EmitEmpty(q, r);
      && Consistent(r', snap) && r' == r.(stb := r'.stb)
      && (STB_QMA in r'.stb <==> STB_QMA in r.stb && q != [])
  {
    if q == [] && STB_QMA in r.stb {
      QueueBitKeeps(r, snap, r.stb - {STB_QMA});
    }
  }

  /** A queue without its oldest error keeps its bounds. */
  lemma OldestGone(q: seq<Err>)
    requires q != [] && Storable(Texts(q))
    ensures Cost(q[1..]) <= Cost(q) && Storable(Texts(q[1..]))
  {
    assert q == [q[0]] + q[1..];
    TextsAppend([q[0]], q[1..]);
    assert Texts(q) == Texts([q[0]]) + Texts(q[1..]);
    PackedAppend(Texts([q[0]]), Texts(q[1..]));
    assert forall t | t in Texts(q[1..]) :: t in Texts(q);
  }

  /**
   Every operation but a direct write of the status byte keeps the invariant, if the queue has room for an error at
   all.
   */
  lemma ApplyKeeps(s: State, step: Step)
    requires Inv(s) && s.size > 0 && Allowed(step) && TextStep(step)
    ensures Inv(Apply(s, step))
    ensures Apply(s, step).size == s.size && Apply(s, step).room == s.room
  {
    match step
    case Push(code, text) =>
      EnqueueKeeps(s.size, s.room, s.queue, code, text);
      var s1 := Record(s, SetEsr(s.regs, code));
      if EsrBit(code).Some? {
        WriteKeeps(s.regs, s.snap, ESR, s.regs.esr + {EsrBit(code).value});
      }
      QueueBitKeeps(s1.regs, s1.snap, s1.regs.stb + {STB_QMA});
    case Next =>
      var q := if s.queue == [] then [] else s.queue[1..];
      EmitEmptyKeeps(q, s.regs, s.snap);
      if s.queue != [] {
        OldestGone(s.queue);
      }
    case Clear =>
      EmitEmptyKeeps([], s.regs, s.snap);
    case Cls =>
      ClsClears(s);
    case Write(name, val) =>
      WriteKeeps(s.regs, s.snap, name, val);
  }

  /** `*CLS` empties the queue, every event register and the whole status byte. */
  lemma ClsClears(s: State)
    requires Inv(s)
    ensures Inv(Apply(s, Cls))
    ensures var s' := Apply(s, Cls);
      && s'.queue == [] && s'.regs.stb == {} && s'.size == s.size && s'.room == s.room
      && s'.regs.esr == {} && s'.regs.oper == {} && s'.regs.ques == {}
  {
    EmitEmptyKeeps([], s.regs, s.snap);
    var s1 := s.(queue := [], regs := EmitEmpty([], s.regs));
    var s2 := EventClearKeeps(s1, ESR);
    var s3 := EventClearKeeps(s2, OPER);
    var s4 := EventClearKeeps(s3, QUES);
    AllQuiet(s4);
  }

  lemma EventClearKeeps(s: State, name: Reg) returns (s': State)
    requires Inv(s) && name in {ESR, OPER, QUES}
    ensures s' == Record(s, RegSet(s.regs, name, {})) && Inv(s')
    ensures s'.regs == s.regs.Put(name, {}).(stb := s'.regs.stb)
  {
    WriteKeeps(s.regs, s.snap, name, {});
    EventCleared(s.regs, name);
    s' := Record(s, RegSet(s.regs, name, {}));
  }

  /** With no event and no error pending no bit of the status byte is set. */
  lemma AllQuiet(s: State)
    requires Inv(s) && s.queue == [] && s.regs.esr == {} && s.regs.oper == {} && s.regs.ques == {}
    ensures s.regs.stb == {}
  {
    var r := s.regs;
    assert STB_ESR !in r.stb && STB_OPS !in r.stb && STB_QES !in r.stb && STB_QMA !in r.stb;
    assert r.stb <= {STB_SRQ};
    assert r.stb * r.sre - {STB_SRQ} == {};
  }

  lemma EventCleared(r: Regs, name: Reg)
    requires name in {ESR, OPER, QUES}
    ensures var r' := RegSet(r, name, {}); r' == r.Put(name, {}).(stb := r'.stb)
  {
    if r.Get(name) != {} {
      EventWrite(r, name, {});
    }
  }

  /** The invariant holds after every run of operations from the initial state. */
  lemma {:induction false} RunKeeps(s: State, steps: seq<Step>)
    requires Inv(s) && s.size > 0
    requires forall i | 0 <= i < |steps| :: Allowed(steps[i]) && TextStep(steps[i])
    ensures Inv(Run(s, steps))
    decreases steps
  {
    if steps != [] {
      ApplyKeeps(s, steps[0]);
      RunKeeps(Apply(s, steps[0]), steps[1..]);
    }
  }

  lemma ReachableInv(size: nat, room: nat, steps: seq<Step>)
    requires size > 0
    requires forall i | 0 <= i < |steps| :: Allowed(steps[i]) && TextStep(steps[i])
    ensures Inv(Run(Init(size, room), steps))
    ensures var s := Apply(Run(Init(size, room), steps), Cls); s.queue == [] && s.regs.stb == {}
  {
    RunKeeps(Init(size, room), steps);
    ClsClears(Run(Init(size, room), steps));
  }

  /** Without a queue a push still raises the queue bit: the bit then means nothing. */
  lemma NoQueueBreaksTheBit(room: nat, text: Option<string>)
    ensures var s := Apply(Init(0, room), Push(-100, text)); s.queue == [] && STB_QMA in s.regs.stb
  {
  }

  /**
   The bit of the event status register that a push adds, by class of error. Codes above 0, which the standard leaves to
   the device, add none.
   */
  lemma PushAdds(s: State, code: Code, text: Option<string>)
    ensures var esr, was := Apply(s, Push(code, text)).regs.esr, s.regs.esr;
      && (-199 <= code <= -100 ==> esr == was + {5})
      && (-299 <= code <= -200 ==> esr == was + {4})
      && (-399 <= code <= -300 ==> esr == was + {3})
      && (-499 <= code <= -400 ==> esr == was + {2})
      && (-599 <= code <= -500 ==> esr == was + {7})
      && (-699 <= code <= -600 ==> esr == was + {6})
      && (-799 <= code <= -700 ==> esr == was + {1})
      && (-899 <= code <= -800 ==> esr == was + {0})
      && (code > -100 || code < -899 ==> esr == was)
  {
    PushSets(s, code, text, if EsrBit(code).Some? then {EsrBit(code).value} else {});
  }

  lemma PushSets(s: State, code: Code, text: Option<string>, bits: Bits)
    requires bits == if EsrBit(code).Some? then {EsrBit(code).value} else {}
    ensures Apply(s, Push(code, text)).regs.esr == s.regs.esr + bits
  {
    var r := SetEsr(s.regs, code);
    if EsrBit(code).Some? {
      WriteStores(s.regs, ESR, s.regs.esr + bits);
    }
    WriteStores(r, STB, r.stb + {STB_QMA});
  }

  /** A command error raises its event bit; the summary bit follows the enable register of that moment. */
  lemma CommandError(s: State)
    requires s.regs.esr == {}
    ensures var r := Apply(s, Push(-100, None)).regs;
      r.esr == {5} && r.ese == s.regs.ese && (STB_ESR in r.stb <==> 5 in r.ese)
  {
    var r := s.regs;
    assert r.esr + {5} == {5};
    EventWrite(r, ESR, {5});
    var r1 := RegSet(r, ESR, {5});
    assert {5} * r.ese != {} <==> 5 in r.ese by {
      assert 5 in r.ese ==> 5 in {5} * r.ese;
    }
    StatusByteWrite(r1, r1.stb + {STB_QMA});
    var stb := RegSet(r1, STB, r1.stb + {STB_QMA}).stb;
    assert STB_ESR in stb - {STB_SRQ} <==> STB_ESR in r1.stb + {STB_QMA} - {STB_SRQ};
  }

  lemma RunOne(s: State, step: Step, more: seq<Step>)
    ensures Run(s, [step] + more) == Run(Apply(s, step), more)
  {
    assert ([step] + more)[1..] == more;
  }

  const ENABLE := Write(ESE, {5})
  const DISABLE := Write(ESE, {})
  const ERROR := Push(-100, None)

  /** A disabled event bit stays summarised. */
  lemma SummaryStays(s: State)
    requires s.regs == RESET
    ensures var r := Apply(Apply(Apply(s, ENABLE), ERROR), DISABLE).regs; STB_ESR in r.stb && r.esr * r.ese == {}
  {
    CommandError(Apply(s, ENABLE));
  }

  /** An event bit that is enabled too late is not summarised. */
  lemma SummaryMissing(s: State)
    requires s.regs == RESET
    ensures var r := Apply(Apply(s, ERROR), ENABLE).regs; STB_ESR !in r.stb && r.esr * r.ese != {}
  {
    CommandError(s);
    assert 5 in {5} * {5};
  }

  /** Writing the enable register behind an error leaves the summary bit as the error left it, set or not. */
  lemma EnableWriteLags(size: nat, room: nat)
    ensures var r := Run(Init(size, room), [ENABLE, ERROR, DISABLE]).regs; STB_ESR in r.stb && r.esr * r.ese == {}
    ensures var r := Run(Init(size, room), [ERROR, ENABLE]).regs; STB_ESR !in r.stb && r.esr * r.ese != {}
  {
    var s := Init(size, room);
    SummaryStays(s);
    RunThree(s, ENABLE, ERROR, DISABLE);
    SummaryMissing(s);
    RunTwo(s, ERROR, ENABLE);
  }

  lemma RunTwo(s: State, a: Step, b: Step)
    ensures Run(s, [a, b]) == Apply(Apply(s, a), b)
  {
    RunOne(s, a, [b]);
    RunOne(Apply(s, a), b, []);
    assert [a] + [b] == [a, b] && [b] + [] == [b];
  }

  lemma RunThree(s: State, a: Step, b: Step, c: Step)
    ensures Run(s, [a, b, c]) == Apply(Apply(Apply(s, a), b), c)
  {
    RunOne(s, a, [b, c]);
    RunTwo(Apply(s, a), b, c);
    assert [a] + [b, c] == [a, b, c];
  }
}
