/** What holds of the status registers over whole runs of register writes. */
module StatusRuns {
  import opened Status

  /** For each event register, its enable register as it stood when the event register last changed. */
  datatype Snap = Snap(esr: Bits, oper: Bits, ques: Bits)

  function SnapAfter(snap: Snap, was: Regs, now: Regs): Snap {
    Snap(if now.esr != was.esr then now.ese else snap.esr,
         if now.oper != was.oper then now.opere else snap.oper,
         if now.ques != was.ques then now.quese else snap.ques)
  }

  /** The service request bit says whether an enabled bit of the status byte is set. */
  predicate ServiceBit(r: Regs) {
    STB_SRQ in r.stb <==> r.stb * r.sre - {STB_SRQ} != {}
  }

  predicate SummaryBits(r: Regs, snap: Snap) {
    && (STB_ESR in r.stb <==> r.esr * snap.esr != {})
    && (STB_OPS in r.stb <==> r.oper * snap.oper != {})
    && (STB_QES in r.stb <==> r.ques * snap.ques != {})
  }

  predicate Consistent(r: Regs, snap: Snap) {
    && ServiceBit(r)
    && SummaryBits(r, snap)
    && r.stb <= {STB_QMA, STB_QES, STB_ESR, STB_SRQ, STB_OPS}
  }

  /** Serving the request bit leaves the other bits of the status byte alone and puts the bit right. */
  lemma ServicedIs(r: Regs)
    ensures Serviced(r) - {STB_SRQ} == r.stb - {STB_SRQ}
    ensures ServiceBit(r.(stb := Serviced(r)))
  {
    var r' := r.(stb := Serviced(r));
    assert r'.stb * r'.sre - {STB_SRQ} == (r.stb - {STB_SRQ}) * (r.sre - {STB_SRQ});
  }

  /** Every write, even of the status byte itself, leaves the service request bit right. */
  lemma {:induction false} ServiceBitKept(r: Regs, name: Reg, val: Bits)
    requires ServiceBit(r)
    ensures ServiceBit(RegSet(r, name, val))
    decreases Rank(name)
  {
    if r.Get(name) != val {
      var (r1, next) := Store(r, name, val);
      if next.Some? {
        ServiceBitKept(r1, next.value.0, next.value.1);
      } else if name == STB || name == SRE {
        ServicedIs(r.Put(name, val));
      }
    }
  }

  /**
   Writing the status byte moves no other register, and no bit but the service request bit differs from what was
   written.
   */
  lemma StatusByteWrite(r: Regs, val: Bits)
    ensures var r' := RegSet(r, STB, val);
      r' == r.(stb := r'.stb) && r'.stb - {STB_SRQ} == val - {STB_SRQ}
  {
    ServicedIs(r.(stb := val));
  }

  /**
   An event write sets its own summary bit from the enable register of that moment and touches no other summary bit.
   */
  lemma EventWrite(r: Regs, name: Reg, val: Bits)
    requires name in {ESR, OPER, QUES} && r.Get(name) != val
    ensures var g := GroupDetails(RegDetails(name).1); var r' := RegSet(r, name, val);
      && r' == r.Put(name, val).(stb := r'.stb)
      && (g.parentBit in r'.stb <==> val * r.Get(g.enable) != {})
      && r'.stb - {STB_SRQ, g.parentBit} == r.stb - {STB_SRQ, g.parentBit}
  {
    var g := GroupDetails(RegDetails(name).1);
    var r1 := r.Put(name, val);
    StatusByteWrite(r1, Summarised(r1.stb, g.parentBit, val, r1.Get(g.enable)));
  }

  /**
   A write stores the value, in the status byte up to the service request bit, and moves no register but these: a
   condition write its event register and the status byte, an event write or one of the request enable register the
   status byte, and an enable write none.
   */
  lemma WriteStores(r: Regs, name: Reg, val: Bits)
    ensures var r' := RegSet(r, name, val);
      match name
      case STB => r' == r.(stb := r'.stb) && r'.stb - {6} == val - {6}
      case SRE => r' == r.(sre := val, stb := r'.stb) && r'.stb - {6} == r.stb - {6}
      case ESE => r' == r.(ese := val)
      case OPERE => r' == r.(opere := val)
      case QUESE => r' == r.(quese := val)
      case ESR => r' == r.(esr := val, stb := r'.stb)
      case OPER => r' == r.(oper := val, stb := r'.stb)
      case QUES => r' == r.(ques := val, stb := r'.stb)
      case OPERC => r' == r.(operc := val, oper := r.oper + (val - r.operc), stb := r'.stb)
      case QUESC => r' == r.(quesc := val, ques := r.ques + (val - r.quesc), stb := r'.stb)
  {
    if r.Get(name) != val {
      match name
      case STB => StatusByteWrite(r, val);
      case SRE => ServicedIs(r.(sre := val));
      case ESR | OPER | QUES => EventWrite(r, name, val);
      case OPERC => ConditionWrite(r, name, OPER, val);
      case QUESC => ConditionWrite(r, name, QUES, val);
      case _ =>
    }
  }

  lemma ConditionWrite(r: Regs, name: Reg, event: Reg, val: Bits)
    requires (name == OPERC && event == OPER) || (name == QUESC && event == QUES)
    requires r.Get(name) != val
    ensures var r' := RegSet(r, name, val); var latched := r.Get(event) + (val - r.Get(name));
      && r' == r.Put(name, val).Put(event, latched).(stb := r'.stb)
      && r' == RegSet(r.Put(name, val), event, latched)
  {
    var r1, latched := r.Put(name, val), r.Get(event) + (val - r.Get(name));
    RisingIs(r.Get(name), val, r.Get(event));
    if r.Get(event) != latched {
      EventStores(r1, event, latched);
    }
  }

  lemma RisingIs(was: Bits, now: Bits, event: Bits)
    ensures Rising(was, now) + event == event + (now - was)
  {
  }

  lemma EventStores(r: Regs, event: Reg, val: Bits)
    requires event in {OPER, QUES} && r.Get(event) != val
    ensures var r' := RegSet(r, event, val); r' == r.Put(event, val).(stb := r'.stb)
  {
    EventWrite(r, event, val);
  }

  /**
   The bits of the status byte by number: an event register that changes puts its summary bit, and no other, as its
   enable register says: ESR bit 5, the operation register bit 7, the questionable register bit 3.
   */
  lemma SummaryNumber(r: Regs, event: Reg, enable: Bits, bit: nat, val: Bits)
    requires
      || (event == ESR && enable == r.ese && bit == 5)
      || (event == OPER && enable == r.opere && bit == 7)
      || (event == QUES && enable == r.quese && bit == 3)
    requires r.Get(event) != val
    ensures var s := RegSet(r, event, val).stb; (bit in s <==> val * enable != {}) && s - {6, bit} == r.stb - {6, bit}
  {
    EventWrite(r, event, val);
  }

  /** Bit 6 asks for service: it is set exactly when another bit of the status byte is enabled. */
  lemma ServiceNumber(r: Regs)
    ensures ServiceBit(r) <==> (6 in r.stb <==> exists b :: b in r.stb && b in r.sre && b != 6)
  {
    var both := r.stb * r.sre - {6};
    if both != {} {
      var b :| b in both;
      assert b in r.stb && b in r.sre && b != 6;
    }
    if b :| b in r.stb && b in r.sre && b != 6 {
      assert b in both;
    }
  }

  /** A write of an event register leaves every other bit of the status byte alone, but for the service bit. */
  lemma EventWriteBits(r: Regs, name: Reg, val: Bits)
    requires name in {ESR, OPER, QUES} && r.Get(name) != val
    ensures var bit := GroupDetails(RegDetails(name).1).parentBit; var r' := RegSet(r, name, val);
      forall b | b != STB_SRQ && b != bit :: b in r'.stb <==> b in r.stb
  {
    EventWrite(r, name, val);
    var r' := RegSet(r, name, val);
    var bit := GroupDetails(RegDetails(name).1).parentBit;
    assert forall b | b != STB_SRQ && b != bit :: b in r'.stb - {STB_SRQ, bit} <==> b in r.stb - {STB_SRQ, bit};
  }

  /** A write of an event register keeps the status model consistent. */
  lemma EventWriteKeeps(r: Regs, snap: Snap, name: Reg, val: Bits)
    requires Consistent(r, snap) && name in {ESR, OPER, QUES}
    ensures var r' := RegSet(r, name, val); SummaryBits(r', SnapAfter(snap, r, r'))
    ensures var r' := RegSet(r, name, val);
      r'.stb - {STB_QMA, STB_QES, STB_ESR, STB_SRQ, STB_OPS} == {} && (STB_QMA in r'.stb <==> STB_QMA in r.stb)
  {
    if r.Get(name) != val {
      EventWriteBits(r, name, val);
      EventWrite(r, name, val);
    }
  }

  lemma ConditionWriteKeeps(r: Regs, snap: Snap, name: Reg, val: Bits)
    requires Consistent(r, snap) && name in {OPERC, QUESC}
    ensures var r' := RegSet(r, name, val); SummaryBits(r', SnapAfter(snap, r, r'))
    ensures var r' := RegSet(r, name, val);
      r'.stb - {STB_QMA, STB_QES, STB_ESR, STB_SRQ, STB_OPS} == {} && (STB_QMA in r'.stb <==> STB_QMA in r.stb)
  {
    if r.Get(name) != val {
      var (r1, next) := Store(r, name, val);
      EventWriteKeeps(r1, snap, next.value.0, next.value.1);
    }
  }

  /** A write of any register but the status byte keeps the status model consistent. */
  lemma WriteKeeps(r: Regs, snap: Snap, name: Reg, val: Bits)
    requires Consistent(r, snap) && name != STB
    ensures var r' := RegSet(r, name, val); Consistent(r', SnapAfter(snap, r, r'))
    ensures STB_QMA in RegSet(r, name, val).stb <==> STB_QMA in r.stb
  {
    ServiceBitKept(r, name, val);
    if name in {ESR, OPER, QUES} {
      EventWriteKeeps(r, snap, name, val);
    } else if name in {OPERC, QUESC} {
      ConditionWriteKeeps(r, snap, name, val);
    } else if name == SRE {
      ServicedIs(r.Put(name, val));
    }
  }

  /**
   An enable write leaves the summary bit right exactly when it does not change whether an enabled event is pending.
   */
  lemma EnableWriteExact(r: Regs, snap: Snap, name: Reg, val: Bits)
    requires Consistent(r, snap) && name in {ESE, OPERE, QUESE}
    ensures var g := GroupDetails(RegDetails(name).1); var r' := RegSet(r, name, val);
      var seen := if name == ESE then snap.esr else if name == OPERE then snap.oper else snap.ques;
      (g.parentBit in r'.stb <==> r'.Get(g.event) * r'.Get(name) != {}) <==>
      (r.Get(g.event) * seen != {} <==> r.Get(g.event) * val != {})
  {
  }

  /** Raising or lowering the error queue bit keeps the status model consistent and sets that bit. */
  lemma QueueBitKeeps(r: Regs, snap: Snap, val: Bits)
    requires Consistent(r, snap)
    requires val == r.stb + {STB_QMA} || val == r.stb - {STB_QMA}
    ensures var r' := RegSet(r, STB, val);
      Consistent(r', snap) && r' == r.(stb := r'.stb) && (STB_QMA in r'.stb <==> STB_QMA in val)
  {
    ServiceBitKept(r, STB, val);
    StatusByteWrite(r, val);
  }

  /** The registers after a run of writes. */
  function Run(r: Regs, ws: seq<(Reg, Bits)>): Regs
    decreases ws
  {
    if ws == [] then r else Run(RegSet(r, ws[0].0, ws[0].1), ws[1..])
  }

  /** The successive values of a condition register over a run. */
  function ConditionHistory(c: Bits, cond: Reg, ws: seq<(Reg, Bits)>): (h: seq<Bits>)
    ensures |h| > 0 && h[0] == c
    decreases ws
  {
    if ws == [] then [c]
    else if ws[0].0 == cond then [c] + ConditionHistory(ws[0].1, cond, ws[1..])
    else ConditionHistory(c, cond, ws[1..])
  }

  predicate Rises(h: seq<Bits>, b: nat) {
    exists k | 0 <= k < |h| - 1 :: b !in h[k] && b in h[k + 1]
  }

  /** One write that does not address the event register adds to it exactly the condition bits that rise. */
  lemma LatchStep(r: Regs, g: Group, name: Reg, val: Bits)
    requires g in {GroupOper, GroupQues} && name != GroupDetails(g).event
    ensures var d := GroupDetails(g); var r' := RegSet(r, name, val);
      && r'.Get(d.condition.value) == (if name == d.condition.value then val else r.Get(d.condition.value))
      && r'.Get(d.event) ==
         r.Get(d.event) + (if name == d.condition.value then val - r.Get(name) else {})
  {
    if r.Get(name) != val {
      if name in {ESR, OPER, QUES} {
        EventWrite(r, name, val);
      } else if name in {OPERC, QUESC} {
        var (r1, next) := Store(r, name, val);
        assert Rising(r.Get(name), val) == val - r.Get(name);
        if r1.Get(next.value.0) != next.value.1 {
          EventWrite(r1, next.value.0, next.value.1);
        }
      } else if name == STB {
        StatusByteWrite(r, val);
      }
    }
  }

  /**
   Event latching: over any run of writes that does not address an event register, that register keeps the bits it had
   and gains exactly the bits that rose from 0 to 1 in its condition register.
   */
  lemma {:induction false} EventLatching(r: Regs, g: Group, ws: seq<(Reg, Bits)>, b: nat)
    requires g in {GroupOper, GroupQues}
    requires forall k | 0 <= k < |ws| :: ws[k].0 != GroupDetails(g).event
    ensures var d := GroupDetails(g);
      b in Run(r, ws).Get(d.event) <==>
      b in r.Get(d.event) || Rises(ConditionHistory(r.Get(d.condition.value), d.condition.value, ws), b)
    decreases ws
  {
    if ws != [] {
      var d := GroupDetails(g);
      var cond := d.condition.value;
      var (name, val) := ws[0];
      LatchStep(r, g, name, val);
      EventLatching(RegSet(r, name, val), g, ws[1..], b);
      if name == cond {
        RisesStep(r.Get(cond), ConditionHistory(val, cond, ws[1..]), b);
      }
    }
  }

  lemma RisesStep(c: Bits, h: seq<Bits>, b: nat)
    requires |h| > 0
    ensures Rises([c] + h, b) <==> (b !in c && b in h[0]) || Rises(h, b)
  {
    var all := [c] + h;
    if b !in c && b in h[0] {
      assert b !in all[0] && b in all[0 + 1];
    }
    if Rises(h, b) {
      var k :| 0 <= k < |h| - 1 && b !in h[k] && b in h[k + 1];
      assert b !in all[k + 1] && b in all[k + 1 + 1];
    }
  }
}
