/** The status registers of `ieee488.c`, in the configuration without custom registers. */
module Status {
  import opened Base

  datatype Reg = STB | SRE | ESR | ESE | OPER | OPERE | OPERC | QUES | QUESE | QUESC

  /** A `scpi_reg_val_t`: the numbers of the bits of a 16-bit word that are set. */
  type Bits = b: set<nat> | forall i | i in b :: i < 16

  const STB_QMA := 2
  const STB_QES := 3
  const STB_ESR := 5
  const STB_SRQ := 6
  const STB_OPS := 7

  datatype RegClass = ClassStb | ClassSre | ClassEvent | ClassEnable | ClassCondition
  datatype Group = GroupStb | GroupEsr | GroupOper | GroupQues

  /** One row of `scpi_reg_group_details`; no row has transition filters. */
  datatype RegGroup = RegGroup(event: Reg, enable: Reg, condition: Option<Reg>, parent: Option<Reg>, parentBit: nat)

  function GroupDetails(g: Group): (d: RegGroup)
    ensures d.parentBit < 16
  {
    match g
    case GroupStb => RegGroup(STB, SRE, None, None, 0)
    case GroupEsr => RegGroup(ESR, ESE, None, Some(STB), STB_ESR)
    case GroupOper => RegGroup(OPER, OPERE, Some(OPERC), Some(STB), STB_OPS)
    case GroupQues => RegGroup(QUES, QUESE, Some(QUESC), Some(STB), STB_QES)
  }

  /** `scpi_reg_details`. */
  function RegDetails(name: Reg): (RegClass, Group) {
    match name
    case STB => (ClassStb, GroupStb)
    case SRE => (ClassSre, GroupStb)
    case ESR => (ClassEvent, GroupEsr)
    case ESE => (ClassEnable, GroupEsr)
    case OPER => (ClassEvent, GroupOper)
    case OPERE => (ClassEnable, GroupOper)
    case OPERC => (ClassCondition, GroupOper)
    case QUES => (ClassEvent, GroupQues)
    case QUESE => (ClassEnable, GroupQues)
    case QUESC => (ClassCondition, GroupQues)
  }

  /** How many more registers a write can reach: condition, then event, then status byte. */
  function Rank(name: Reg): nat {
    match RegDetails(name).0
    case ClassCondition => 2
    case ClassEvent => 1
    case _ => 0
  }

  /** The array `registers` of the context, one field per register name. */
  datatype Regs = Regs(stb: Bits, sre: Bits, esr: Bits, ese: Bits, oper: Bits, opere: Bits, operc: Bits,
                       ques: Bits, quese: Bits, quesc: Bits)
  {
    function Get(name: Reg): Bits {
      match name
      case STB => stb
      case SRE => sre
      case ESR => esr
      case ESE => ese
      case OPER => oper
      case OPERE => opere
      case OPERC => operc
      case QUES => ques
      case QUESE => quese
      case QUESC => quesc
    }

    function Put(name: Reg, v: Bits): Regs {
      match name
      case STB => this.(stb := v)
      case SRE => this.(sre := v)
      case ESR => this.(esr := v)
      case ESE => this.(ese := v)
      case OPER => this.(oper := v)
      case OPERE => this.(opere := v)
      case OPERC => this.(operc := v)
      case QUES => this.(ques := v)
      case QUESE => this.(quese := v)
      case QUESC => this.(quesc := v)
    }
  }

  const RESET := Regs({}, {}, {}, {}, {}, {}, {}, {}, {}, {})

  /** The status byte with its service request bit recomputed from the other bits. */
  function Serviced(r: Regs): Bits {
    if (r.stb - {STB_SRQ}) * (r.sre - {STB_SRQ}) != {} then r.stb + {STB_SRQ} else r.stb - {STB_SRQ}
  }

  /** The status byte with one summary bit recomputed. */
  function Summarised(stb: Bits, bit: nat, event: Bits, enable: Bits): Bits
    requires bit < 16
  {
    if event * enable != {} then stb + {bit} else stb - {bit}
  }

  /** The bits that rise from 0 to 1. */
  function Rising(was: Bits, now: Bits): Bits {
    (was - now + (now - was)) * now
  }

  /** Writes one register that changes, and names the register and value to be written next. */
  function Store(r: Regs, name: Reg, val: Bits): (n: (Regs, Option<(Reg, Bits)>))
    ensures n.1.Some? ==> Rank(n.1.value.0) < Rank(name)
  {
    var r1 := r.Put(name, val);
    var (kind, i) := RegDetails(name);
    var g := GroupDetails(i);
    match kind
    case ClassStb => (r1.Put(STB, Serviced(r1)), None)
    case ClassSre => (r1.Put(STB, Serviced(r1)), None)
    case ClassEnable => (r1, None)
    case ClassEvent => (r1, Some((STB, Summarised(r1.stb, g.parentBit, val, r1.Get(g.enable)))))
    case ClassCondition => (r1, Some((g.event, Rising(r.Get(name), val) + r1.Get(g.event))))
  }

  /** What `SCPI_RegSet` makes of the registers. */
  function RegSet(r: Regs, name: Reg, val: Bits): Regs
    decreases Rank(name)
  {
    if r.Get(name) == val then r
    else
      var (r1, next) := Store(r, name, val);
      if next.None? then r1 else RegSet(r1, next.value.0, next.value.1)
  }

  /** The loop body of `SCPI_RegSet` for a value that changes: the write to make next, if there is one. */
  method SetOne(r: Regs, name: Reg, val: Bits) returns (r': Regs, next: Option<(Reg, Bits)>)
    ensures (r', next) == Store(r, name, val)
  {
    var (kind, i) := RegDetails(name);
    var group := GroupDetails(i);
    var oldVal := r.Get(name);
    next := None;
    r' := r.Put(name, val);
    match kind {
      case ClassStb =>
        r' := ServiceRequest(r');
      case ClassSre =>
        r' := ServiceRequest(r');
      case ClassEvent =>
        var summary := val * r'.Get(group.enable);
        var stb := r'.Get(group.parent.value);
        if summary != {} {
          stb := stb + {group.parentBit};
        } else {
          stb := stb - {group.parentBit};
        }
        next := Some((group.parent.value, stb));
      case ClassCondition =>
        next := Some((group.event, (oldVal - val + (val - oldVal)) * val + r'.Get(group.event)));
      case ClassEnable =>
    }
  }

  /** The status byte arm of `SCPI_RegSet`; the control callback it may make is not modelled. */
  method ServiceRequest(r: Regs) returns (r': Regs)
    ensures r' == r.(stb := Serviced(r))
  {
    var stb := r.Get(STB) - {STB_SRQ};
    var sre := r.Get(SRE) - {STB_SRQ};
    if stb * sre != {} {
      r' := r.Put(STB, r.Get(STB) + {STB_SRQ});
    } else {
      r' := r.Put(STB, r.Get(STB) - {STB_SRQ});
    }
  }

  class Registers {
    var registers: Regs

    constructor ()
      ensures registers == RESET
    {
      registers := RESET;
    }

    /** `SCPI_RegGet`: a name that is no register reads as zero. */
    method Get(name: Option<Reg>) returns (v: Bits)
      ensures v == if name.Some? then registers.Get(name.value) else {}
    {
      if name.Some? {
        return registers.Get(name.value);
      }
      return {};
    }

    /** `SCPI_RegSet`: the cascade condition, event, status byte, as a loop that rebinds the name and the value. */
    method Set(name0: Option<Reg>, val0: Bits)
      modifies this
      ensures registers == if name0.Some? then RegSet(old(registers), name0.value, val0) else old(registers)
    {
      if name0.None? {
        return;
      }
      var next := Some((name0.value, val0));
      while next.Some?
        invariant next.Some? ==>
          RegSet(registers, next.value.0, next.value.1) == RegSet(old(registers), name0.value, val0)
        invariant next.None? ==> registers == RegSet(old(registers), name0.value, val0)
        decreases next.Some?, if next.Some? then Rank(next.value.0) else 0
      {
        var (name, val) := next.value;
        if registers.Get(name) == val {
          return;
        }
        registers, next := SetOne(registers, name, val);
      }
    }

    /** `SCPI_RegSetBits`. */
    method SetBits(name: Reg, bits: Bits)
      modifies this
      ensures registers == RegSet(old(registers), name, old(registers).Get(name) + bits)
    {
      var v := Get(Some(name));
      Set(Some(name), v + bits);
    }

    /** `SCPI_RegClearBits`. */
    method ClearBits(name: Reg, bits: Bits)
      modifies this
      ensures registers == RegSet(old(registers), name, old(registers).Get(name) - bits)
    {
      var v := Get(Some(name));
      Set(Some(name), v - bits);
    }
  }
}
