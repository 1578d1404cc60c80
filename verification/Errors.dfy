/**
 The error functions of `error.c` on the real structures: the ring buffer, the text heap and the registers.
 The configuration is the one with device-dependent texts and without `malloc`.
 */
module Errors {
  import opened Base
  import opened ErrorQueue
  import F = Fifo
  import opened InfoHeap
  import opened Status
  import opened StatusRuns
  import Results
  import opened ErrorCodes

  /** `scpi_error_t`: the text is a pointer into the heap. */
  datatype Entry = Entry(code: Code, info: Option<nat>)

  /** The C string behind a pointer, cut at `n` characters. */
  function TextOf(info: Option<string>, n: nat): (t: Option<string>)
    requires info.Some? ==> NUL in info.value || n < |info.value|
    ensures t.Some? ==> NUL !in t.value
  {
    if info.None? then None else Some(info.value[..StrNLen(info.value, n)])
  }

  /** The pointers of a list of entries. */
  function Infos(es: seq<Entry>): seq<nat> {
    if es == [] then []
    else (if es[0].info.Some? then [es[0].info.value] else []) + Infos(es[1..])
  }

  lemma {:induction false} InfosAppend(a: seq<Entry>, b: seq<Entry>)
    ensures Infos(a + b) == Infos(a) + Infos(b)
  {
    if a == [] {
      assert a + b == b;
    } else {
      assert (a + b)[1..] == a[1..] + b && (a + b)[0] == a[0];
      InfosAppend(a[1..], b);
      var first := if a[0].info.Some? then [a[0].info.value] else [];
      assert first + (Infos(a[1..]) + Infos(b)) == (first + Infos(a[1..])) + Infos(b);
    }
  }

  /** The entries carry the codes of the abstract errors, and a pointer exactly where there is a text. */
  ghost predicate Matches(es: seq<Entry>, q: seq<Err>) {
    |es| == |q| && forall i | 0 <= i < |q| :: es[i].code == q[i].code && (es[i].info.Some? <==> q[i].text.Some?)
  }

  lemma MatchesSnoc(es: seq<Entry>, q: seq<Err>, e: Entry, a: Err)
    requires Matches(es, q) && e.code == a.code && (e.info.Some? <==> a.text.Some?)
    ensures Matches(es + [e], q + [a])
    ensures Infos(es + [e]) == Infos(es) + (if e.info.Some? then [e.info.value] else [])
    ensures Texts(q + [a]) == Texts(q) + (if a.text.Some? then [a.text.value] else [])
  {
    InfosAppend(es, [e]);
    TextsAppend(q, [a]);
  }

  lemma MatchesEnds(es: seq<Entry>, q: seq<Err>)
    requires Matches(es, q) && q != []
    ensures es == es[..|es| - 1] + [es[|es| - 1]] && q == q[..|q| - 1] + [q[|q| - 1]]
    ensures Matches(es[..|es| - 1], q[..|q| - 1]) && Matches(es[1..], q[1..])
  {
  }

  /** The ESR table of `error.c`. */
  datatype ErrorReg = ErrorReg(from: int, to: int, esrBit: nat)

  const ERROR_DEFS_N := 9

  function ErrorDefs(i: nat): (row: ErrorReg)
    ensures row.esrBit < 16
  {
    if i == 0 then ErrorReg(-100, -199, 5)
    else if i == 1 then ErrorReg(-200, -299, 4)
    else if i == 2 then ErrorReg(-300, -399, 3)
    else if i == 3 then ErrorReg(1, 32767, 3)
    else if i == 4 then ErrorReg(-400, -499, 2)
    else if i == 5 then ErrorReg(-500, -599, 7)
    else if i == 6 then ErrorReg(-600, -699, 6)
    else if i == 7 then ErrorReg(-700, -799, 1)
    else ErrorReg(-800, -899, 0)
  }

  /** The one row that matches a code. */
  function RowOf(err: Code): (i: Option<nat>)
    ensures forall k: nat | k < ERROR_DEFS_N ::
      (err <= ErrorDefs(k).from && err >= ErrorDefs(k).to) <==> i == Some(k)
    ensures if i.Some? then i.value < ERROR_DEFS_N && EsrBit(err) == Some(ErrorDefs(i.value).esrBit)
      else EsrBit(err).None?
  {
    if -199 <= err <= -100 then Some(0)
    else if -299 <= err <= -200 then Some(1)
    else if -399 <= err <= -300 then Some(2)
    else if -499 <= err <= -400 then Some(4)
    else if -599 <= err <= -500 then Some(5)
    else if -699 <= err <= -600 then Some(6)
    else if -799 <= err <= -700 then Some(7)
    else if -899 <= err <= -800 then Some(8)
    else None
  }

  const GROUPS := [GroupStb, GroupEsr, GroupOper, GroupQues]

  /** The length `SCPI_ErrorPushEx` cuts a text at: what it was given, or 255 for an automatic length. */
  function TextLimit(infoLen: nat): nat {
    if infoLen == 0 then Results.DESCRIPTION_MAX else infoLen
  }

  lemma {:induction false} StrNLenAgain(s: string, n: nat)
    requires NUL in s || n < |s|
    ensures StrNLen(s, n) <= |s| && (NUL in s || StrNLen(s, n) < |s|)
    ensures StrNLen(s, StrNLen(s, n)) == StrNLen(s, n)
  {
    if n > 0 && s[0] != NUL {
      StrNLenAgain(s[1..], n - 1);
    }
  }

  /** Raising the queue bit a second time changes nothing. */
  lemma EmitTwice(r: Regs)
    requires STB_QMA in r.stb
    ensures Emit(r) == r
  {
    assert r.stb + {STB_QMA} == r.stb;
  }

  lemma EmitRaises(r: Regs)
    ensures STB_QMA in Emit(r).stb
  {
    StatusByteWrite(r, r.stb + {STB_QMA});
  }

  function ClearEvent(s: State, name: Reg): State {
    Record(s, RegSet(s.regs, name, {}))
  }

  /** One turn of the loop of `SCPI_CoreCls`. */
  function ClearedGroup(s: State, group: Group): State {
    var event := GroupDetails(group).event;
    if event == STB then s else ClearEvent(s, event)
  }

  function ClearedTo(s: State, i: nat): State
    requires i <= |GROUPS|
  {
    if i == 0 then s else ClearedGroup(ClearedTo(s, i - 1), GROUPS[i - 1])
  }

  function ClearedEvents(s: State): State {
    ClearEvent(ClearEvent(ClearEvent(s, ESR), OPER), QUES)
  }

  lemma ClearedFour(s: State)
    ensures ClearedTo(s, |GROUPS|) == ClearedEvents(s)
  {
    assert ClearedTo(s, 1) == s;
    assert ClearedTo(s, 2) == ClearEvent(s, ESR);
    assert ClearedTo(s, 3) == ClearEvent(ClearEvent(s, ESR), OPER);
  }

  /** Clearing the errors and then the events is the abstract clear command. */
  lemma ClsIs(s: State)
    ensures Apply(s, Cls) == ClearedEvents(Apply(s, Clear))
  {
  }

  function Oldest(q: seq<Err>): Err {
    if q == [] then NO_ERROR else q[0]
  }

  /** What `SYSTem:ERRor?` answers for an error. */
  function Report(a: Err): string {
    Results.ErrorText(a.code, ErrorTranslate(a.code), a.text)
  }

  /** `SCPI_ErrorTranslate` with the minimal list of errors. */
  function ErrorTranslate(code: Code): (d: string)
    ensures NUL !in d
  {
    if code <= -150 then LaterText(code)
    else
      match code
      case 0 => "No error"
      case -101 => "Invalid character"
      case -103 => "Invalid separator"
      case -104 => "Data type error"
      case -108 => "Parameter not allowed"
      case -109 => "Missing parameter"
      case -113 => "Undefined header"
      case -131 => "Invalid suffix"
      case -138 => "Suffix not allowed"
      case _ => "Unknown error"
  }

  /** The texts of the codes from -150 down. */
  function LaterText(code: Code): (d: string)
    ensures NUL !in d
  {
    match code
    case -151 => "Invalid string data"
    case -170 => "Expression error"
    case -200 => "Execution error"
    case -224 => "Illegal parameter value"
    case -310 => "System error"
    case -350 => "Queue overflow"
    case -363 => "Input buffer overrun"
    case _ => "Unknown error"
  }

  /** Pieces of a text without NULs hold none either. */
  lemma PartsClean(parts: seq<string>)
    requires 1 <= |parts| <= 3 && NUL !in parts[0]
    requires Results.Info(parts).Some? ==> NUL !in Results.Info(parts).value
    ensures forall p | p in parts :: NUL !in p
  {
    if |parts| == 3 {
      assert forall c | c in parts[1] || c in parts[2] :: c in parts[1] + parts[2];
    }
  }

  class ErrorContext {
    const fifo: F.Fifo<Entry>
    const heap: Heap
    const regs: Registers
    var cmdError: bool
    /** The abstract queue, and the enable registers as the event registers last saw them. */
    ghost var queue: seq<Err>
    ghost var snap: Snap

    /**
     The ring buffer holds the abstract queue, and the heap holds exactly the texts of the queued errors, in queue
     order, at the addresses their entries point to. What that means byte by byte is `InfoHeap.Layout`.
     */
    ghost predicate Valid()
      reads this`queue, fifo, fifo.data, heap, heap.data
    {
      && Linked()
      && heap.live == Texts(queue)
      && heap.Pointers() == Infos(fifo.Contents())
    }

    ghost predicate Linked()
      reads this`queue, fifo, fifo.data, heap, heap.data
    {
      fifo.Valid() && heap.Valid() && Matches(fifo.Contents(), queue)
    }

    ghost function Abs(): State
      reads this, regs
    {
      State(fifo.data.Length, heap.data.Length, queue, regs.registers, snap)
    }

    constructor (queueData: array<Entry>, heapData: array<char>)
      modifies heapData
      ensures Valid() && fresh(fifo) && fresh(heap) && fresh(regs)
      ensures fifo.data == queueData && heap.data == heapData
      ensures Abs() == Init(queueData.Length, heapData.Length)
    {
      fifo := new F.Fifo(queueData);
      heap := new Heap(heapData);
      regs := new Registers();
      cmdError := false;
      queue, snap := [], Snap({}, {}, {});
    }

    /** Queues one entry together with the abstract error it stands for; the heap is not looked at. */
    method Append(value: Entry, ghost a: Err) returns (ok: bool)
      requires fifo.Valid() && Matches(fifo.Contents(), queue)
      requires value.code == a.code && (value.info.Some? <==> a.text.Some?)
      modifies this`queue, fifo, fifo.data
      ensures fifo.Valid() && Matches(fifo.Contents(), queue)
      ensures ok <==> |old(queue)| < fifo.data.Length
      ensures ok ==> queue == old(queue) + [a] && fifo.Contents() == old(fifo.Contents()) + [value]
      ensures !ok ==> queue == old(queue) && fifo.Contents() == old(fifo.Contents())
    {
      ok := fifo.Add(value);
      if ok {
        queue := queue + [a];
      }
    }

    /** Takes back the newest queued error, if there is one. */
    method TakeNewest() returns (last: Option<Entry>)
      requires fifo.Valid() && Matches(fifo.Contents(), queue)
      modifies this`queue, fifo
      ensures fifo.Valid() && Matches(fifo.Contents(), queue)
      ensures last.Some? <==> old(queue) != []
      ensures last.Some? ==>
        queue == old(queue)[..|old(queue)| - 1] && fifo.Contents() + [last.value] == old(fifo.Contents())
      ensures last.None? ==> queue == old(queue) && fifo.Contents() == old(fifo.Contents())
    {
      if queue != [] {
        MatchesEnds(fifo.Contents(), queue);
      }
      last := fifo.RemoveLast();
      if last.Some? {
        queue := queue[..|queue| - 1];
      }
    }

    /**
     Takes back the newest queued error and frees its text. On an empty queue the C variable still holds the entry
     `value`, whose text is already free.
     */
    method DropNewest(value: Entry)
      requires Valid()
      requires value.info.Some? ==> value.info.value < heap.data.Length && heap.data[value.info.value] == NUL
      modifies this`queue, fifo, heap, heap.data
      ensures Valid() && queue == if old(queue) == [] then [] else old(queue)[..|old(queue)| - 1]
    {
      ghost var q := queue;
      var last := TakeNewest();
      if last.Some? {
        NewestText(queue, q[|q| - 1], fifo.Contents(), last.value);
        assert q == queue + [q[|q| - 1]];
        FreeNewest(last.value.info, Texts(queue), Infos(fifo.Contents()));
      } else {
        heap.Free(value.info, true);
      }
    }

    /**
     The overflow branch of `SCPI_ErrorAddInternal`; `p` is the text just duplicated for the error that did not fit.
     */
    method Overflow(err: Code, p: Option<nat>, ghost kept: Option<string>)
      requires Linked() && |queue| == fifo.data.Length && (p.Some? <==> kept.Some?)
      requires heap.live == Texts(queue) + (if kept.Some? then [kept.value] else [])
      requires heap.Pointers() == Infos(fifo.Contents()) + (if p.Some? then [p.value] else [])
      modifies this`queue, fifo, fifo.data, heap, heap.data
      ensures Valid()
      ensures queue == if old(queue) == [] then [] else old(queue)[..|old(queue)| - 1] + [Err(QUEUE_OVERFLOW, None)]
    {
      MatchesCount(fifo.Contents(), queue);
      FreeNewest(p, Texts(queue), Infos(fifo.Contents()));
      DropNewest(Entry(err, p));
      AppendPlain(QUEUE_OVERFLOW);
    }

    /** Queues an error without text. */
    method AppendPlain(code: Code)
      requires Valid()
      modifies this`queue, fifo, fifo.data
      ensures Valid()
      ensures queue == if |old(queue)| < fifo.data.Length then old(queue) + [Err(code, None)] else old(queue)
    {
      ghost var q, es := queue, fifo.Contents();
      var ok := Append(Entry(code, None), Err(code, None));
      if ok {
        NewestText(q, Err(code, None), es, Entry(code, None));
      }
    }

    /**
     `SCPI_ErrorAddInternal`. The text is the memory behind the pointer `info`, cut at `infoLen` characters or its NUL;
     its one caller never passes a length of zero with a text.
     */
    method AddInternal(err: Code, info: Option<string>, infoLen: nat) returns (ok: bool)
      requires Valid()
      requires info.Some? ==> (NUL in info.value || infoLen < |info.value|) && (infoLen > 0 || info.value[0] == NUL)
      modifies this`queue, fifo, fifo.data, heap, heap.data
      ensures Valid()
      ensures ok <==> |old(queue)| < fifo.data.Length
      ensures queue == Enqueue(fifo.data.Length, heap.data.Length, old(queue), err, TextOf(info, infoLen))
    {
      var p: Option<nat> := None;
      ghost var kept := Kept(heap.data.Length, queue, TextOf(info, infoLen));
      if info.Some? {
        p := heap.StrNDup(info.value, infoLen);
      }
      ok := QueueDuplicate(Entry(err, p), kept);
    }

    /** Queues an error whose text has been duplicated, or undoes that on overflow. */
    method QueueDuplicate(value: Entry, ghost kept: Option<string>) returns (ok: bool)
      requires Linked() && (value.info.Some? <==> kept.Some?)
      requires heap.live == Texts(queue) + (if kept.Some? then [kept.value] else [])
      requires heap.Pointers() == Infos(fifo.Contents()) + (if value.info.Some? then [value.info.value] else [])
      modifies this`queue, fifo, fifo.data, heap, heap.data
      ensures Valid()
      ensures ok <==> |old(queue)| < fifo.data.Length
      ensures queue == if ok then old(queue) + [Err(value.code, kept)]
        else if old(queue) == [] then [] else old(queue)[..|old(queue)| - 1] + [Err(QUEUE_OVERFLOW, None)]
    {
      ghost var q, es := queue, fifo.Contents();
      ok := Append(value, Err(value.code, kept));
      if ok {
        NewestText(q, Err(value.code, kept), es, value);
      } else {
        Overflow(value.code, value.info, kept);
      }
    }

    /** Frees the newest text of the heap when the pointer is one. */
    method FreeNewest(p: Option<nat>, ghost live: seq<string>, ghost pointers: seq<nat>)
      requires heap.Valid() && |live| == |pointers|
      requires if p.None? then heap.live == live && heap.Pointers() == pointers
        else |heap.live| == |live| + 1 && heap.live[..|live|] == live && heap.Pointers() == pointers + [p.value]
      modifies heap, heap.data
      ensures heap.Valid() && heap.live == live && heap.Pointers() == pointers
      ensures p.Some? ==> p.value < heap.data.Length && heap.data[p.value] == NUL
    {
      heap.PointersLive();
      assert p.Some? ==> heap.Pointers()[|live|] == p.value;
      heap.Free(p, true);
    }

    /** Frees the oldest text of the heap when the pointer is one. */
    method FreeOldest(p: Option<nat>, ghost live: seq<string>, ghost pointers: seq<nat>)
      requires heap.Valid() && |live| == |pointers|
      requires if p.None? then heap.live == live && heap.Pointers() == pointers
        else |heap.live| == |live| + 1 && heap.live[1..] == live && heap.Pointers() == [p.value] + pointers
      modifies heap, heap.data
      ensures heap.Valid() && heap.live == live && heap.Pointers() == pointers
    {
      heap.PointersLive();
      assert p.Some? ==> heap.Pointers()[0] == p.value;
      heap.Free(p, false);
    }

    /** `SCPI_ErrorCount`. */
    method ErrorCount() returns (n: nat)
      requires Linked()
      ensures n == |queue|
    {
      n := fifo.count;
    }

    /** `SCPI_ErrorEmitEmpty`; the error callback is not modelled. */
    method ErrorEmitEmpty()
      requires Linked()
      modifies regs
      ensures regs.registers == EmitEmpty(queue, old(regs.registers))
    {
      var n := ErrorCount();
      var stb := regs.Get(Some(STB));
      if n == 0 && STB_QMA in stb {
        regs.ClearBits(STB, {STB_QMA});
      }
    }

    /** `SCPI_ErrorEmit`. */
    method ErrorEmit()
      modifies regs
      ensures regs.registers == Emit(old(regs.registers))
    {
      regs.SetBits(STB, {STB_QMA});
    }

    /** The loop of `SCPI_ErrorPushEx` over the table of ESR bits. */
    method SetEsrBits(err: Code)
      modifies regs
      ensures regs.registers == SetEsr(old(regs.registers), err)
    {
      for i := 0 to ERROR_DEFS_N
        invariant regs.registers ==
          if RowOf(err).Some? && RowOf(err).value < i then SetEsr(old(regs.registers), err) else old(regs.registers)
      {
        var row := ErrorDefs(i);
        if err <= row.from && err >= row.to {
          regs.SetBits(ESR, {row.esrBit});
        }
      }
    }

    /** `SCPI_ErrorPushEx`. */
    method ErrorPushEx(err: Code, info: Option<string>, infoLen: nat)
      requires Valid()
      requires info.Some? ==> NUL in info.value || TextLimit(infoLen) < |info.value|
      modifies this`queue, this`snap, this`cmdError, fifo, fifo.data, heap, heap.data, regs
      ensures Valid() && cmdError
      ensures Abs() == Apply(old(Abs()), Push(err, TextOf(info, TextLimit(infoLen))))
    {
      ghost var s := Abs();
      var len := PushedLength(info, infoLen);
      var ok := AddInternal(err, info, len);
      SignalError(err, !ok);
      cmdError := true;
      PushIs(s, err, TextOf(info, len));
    }

    lemma PushIs(s: State, err: Code, text: Option<string>)
      ensures var r := SetEsr(s.regs, err);
        Apply(s, Push(err, text)) ==
        s.(queue := Enqueue(s.size, s.room, s.queue, err, text), regs := Emit(r), snap := SnapAfter(s.snap, s.regs, r))
    {
    }

    /** An automatic length is that of the text, at most 255. */
    method PushedLength(info: Option<string>, infoLen: nat) returns (len: nat)
      requires info.Some? ==> NUL in info.value || TextLimit(infoLen) < |info.value|
      ensures info.Some? ==> (NUL in info.value || len < |info.value|) && (len > 0 || info.value[0] == NUL)
      ensures TextOf(info, len) == TextOf(info, TextLimit(infoLen))
    {
      len := infoLen;
      if info.Some? && len == 0 {
        len := StrNLen(info.value, Results.DESCRIPTION_MAX);
        StrNLenAgain(info.value, Results.DESCRIPTION_MAX);
      }
    }

    /** The register side of `SCPI_ErrorPushEx`. */
    method SignalError(err: Code, overflow: bool)
      modifies this`snap, regs
      ensures var s := SetEsr(old(regs.registers), err);
        regs.registers == Emit(s) && snap == SnapAfter(old(snap), old(regs.registers), s)
    {
      SetEsrBits(err);
      snap := SnapAfter(snap, old(regs.registers), regs.registers);
      EmitRaises(regs.registers);
      ErrorEmit();
      if overflow {
        EmitTwice(regs.registers);
        ErrorEmit();
      }
    }

    /** `SCPI_ErrorPush`. */
    method ErrorPush(err: Code)
      requires Valid()
      modifies this`queue, this`snap, this`cmdError, fifo, fifo.data, heap, heap.data, regs
      ensures Valid() && cmdError
      ensures Abs() == Apply(old(Abs()), Push(err, None))
    {
      ErrorPushEx(err, None, 0);
    }

    /** Takes the oldest entry out of the ring buffer; the heap is not looked at. */
    method TakeHead() returns (e: Option<Entry>)
      requires fifo.Valid() && Matches(fifo.Contents(), queue)
      modifies this`queue, fifo
      ensures fifo.Valid() && Matches(fifo.Contents(), queue)
      ensures e.Some? <==> old(queue) != []
      ensures e.None? ==> queue == [] && fifo.Contents() == []
      ensures e.Some? ==> old(queue) == [old(queue)[0]] + queue && old(fifo.Contents()) == [e.value] + fifo.Contents()
    {
      if queue != [] {
        MatchesEnds(fifo.Contents(), queue);
      }
      e := fifo.Remove();
      if e.Some? {
        queue := queue[1..];
      }
    }

    /** Takes out the oldest error; its text stays in the heap until it is freed. */
    method TakeOldest() returns (e: Option<Entry>)
      requires Valid()
      modifies this`queue, fifo
      ensures Linked() && |Infos(fifo.Contents())| == |Texts(queue)|
      ensures e.Some? <==> old(queue) != []
      ensures e.None? ==> Valid() && queue == []
      ensures e.Some? ==> old(queue) == [old(queue)[0]] + queue && e.value.code == old(queue)[0].code
      ensures e.Some? ==> Holds(e.value, old(queue)[0])
    {
      ghost var es, q := fifo.Contents(), queue;
      e := TakeHead();
      MatchesCount(fifo.Contents(), queue);
      if e.Some? {
        OldestText(q, es);
      }
    }

    /** The heap holds the text of the error `a` taken out as `e`, and behind it the texts of the queue. */
    ghost predicate Holds(e: Entry, a: Err)
      requires heap.Valid() && fifo.Valid()
      reads this`queue, fifo, fifo.data, heap, heap.data
    {
      && (e.info.Some? <==> a.text.Some?)
      && heap.live == (if a.text.Some? then [a.text.value] else []) + Texts(queue)
      && heap.Pointers() == (if e.info.Some? then [e.info.value] else []) + Infos(fifo.Contents())
    }

    /** Frees the text of an error that has been taken out. */
    method Release(e: Entry, ghost a: Err)
      requires Linked() && |Infos(fifo.Contents())| == |Texts(queue)| && Holds(e, a)
      modifies heap, heap.data
      ensures Valid()
    {
      FreeOldest(e.info, Texts(queue), Infos(fifo.Contents()));
    }

    /** The loop of `SCPI_ErrorClear`: every error is taken out and its text freed. */
    method Drain()
      requires Valid()
      modifies this`queue, fifo, heap, heap.data
      ensures Valid() && queue == []
    {
      ghost var a := if queue == [] then NO_ERROR else queue[0];
      var e := TakeOldest();
      while e.Some?
        invariant Linked() && |Infos(fifo.Contents())| == |Texts(queue)|
        invariant if e.Some? then Holds(e.value, a) else Valid() && queue == []
        decreases e.Some?, |queue|
      {
        Release(e.value, a);
        a := if queue == [] then NO_ERROR else queue[0];
        e := TakeOldest();
      }
    }

    /** `SCPI_ErrorPop`: the oldest error, or code 0 without a text. The caller frees the text. */
    method ErrorPop() returns (e: Entry)
      requires Valid()
      modifies this`queue, fifo, regs
      ensures Linked() && |Infos(fifo.Contents())| == |Texts(queue)|
      ensures queue == if old(queue) == [] then [] else old(queue)[1..]
      ensures e.code == Oldest(old(queue)).code && Holds(e, Oldest(old(queue)))
      ensures regs.registers == EmitEmpty(queue, old(regs.registers))
    {
      e := TakeEntry();
      ghost var a, q := Oldest(old(queue)), queue;
      ErrorEmitEmpty();
      assert Holds(e, a) && queue == q;
    }

    /** The oldest entry, or one of code 0 without a text. */
    method TakeEntry() returns (e: Entry)
      requires Valid()
      modifies this`queue, fifo
      ensures Linked() && |Infos(fifo.Contents())| == |Texts(queue)|
      ensures queue == if old(queue) == [] then [] else old(queue)[1..]
      ensures e.code == Oldest(old(queue)).code && Holds(e, Oldest(old(queue)))
    {
      var head := TakeOldest();
      if head.Some? {
        return head.value;
      }
      HoldsNothing();
      return Entry(0, None);
    }

    lemma HoldsNothing()
      requires Valid() && queue == []
      ensures |Infos(fifo.Contents())| == |Texts(queue)| && Holds(Entry(0, None), NO_ERROR)
    {
      assert heap.live == [] + Texts(queue) && heap.Pointers() == [] + Infos(fifo.Contents());
    }

    /** The description and the pieces of the text, as `SCPI_ResultError` finds them through `scpiheap_get_parts`. */
    method ReportParts(e: Entry, ghost a: Err) returns (parts: seq<string>)
      requires Linked() && Holds(e, a) && e.code == a.code
      ensures 1 <= |parts| <= 3 && parts[0] == ErrorTranslate(a.code) && Results.Info(parts) == a.text
      ensures forall p | p in parts :: NUL !in p
    {
      parts := [ErrorTranslate(e.code)];
      if e.info.Some? {
        var pieces := TextPieces(e, a);
        parts := parts + pieces;
      }
      PartsClean(parts);
    }

    /** The stored text in one piece, or in two when it runs over the end of the heap. */
    method TextPieces(e: Entry, ghost a: Err) returns (pieces: seq<string>)
      requires Linked() && Holds(e, a) && e.info.Some?
      ensures (|pieces| == 1 && pieces[0] == a.text.value) || (|pieces| == 2 && pieces[0] + pieces[1] == a.text.value)
    {
      FirstIsLive(e, a);
      var p := e.info.value;
      var ok, len1, s2, len2 := heap.GetParts(e.info);
      ghost var m := heap.data[..];
      assert IsParts(m, p, len1, s2, len2, a.text.value);
      var piece1, piece2 := heap.data[p..p + len1], heap.data[..len2];
      assert m[p..p + len1] == piece1 && m[..len2] == piece2;
      pieces := if s2.Some? then [piece1, piece2] else [piece1];
      assert piece1 + [] == piece1;
    }

    /** The text of an error just taken out is the oldest live text, and its pointer is the first. */
    lemma FirstIsLive(e: Entry, a: Err)
      requires Linked() && Holds(e, a) && e.info.Some?
      ensures |heap.live| > 0 && heap.live[0] == a.text.value && heap.Pointers()[0] == e.info.value
      ensures e.info.value < heap.data.Length && heap.data[e.info.value] != NUL
    {
      heap.PointersLive();
      assert heap.live[0] == a.text.value && heap.Pointers()[0] == e.info.value;
    }

    /**
     `SCPI_SystemErrorNextQ`: takes out the oldest error, reports it and frees its text. The report carries the text
     exactly as it was pushed, wherever it lies in the ring.
     */
    method SystemErrorNextQ(results: Results.Results)
      requires Valid()
      modifies this`queue, fifo, heap, heap.data, regs, results
      ensures Valid() && Abs() == Apply(old(Abs()), Next)
      ensures var a := Oldest(old(queue));
        results.output == old(results.output + results.Delimiter()) + Report(a)
    {
      ghost var a := Oldest(queue);
      var e := ErrorPop();
      ReportError(e, a, results);
      Release(e, a);
    }

    /** `SCPI_ResultError` for an error that has been taken out. */
    method ReportError(e: Entry, ghost a: Err, results: Results.Results)
      requires Linked() && Holds(e, a) && e.code == a.code
      modifies results
      ensures Linked() && Holds(e, a)
      ensures results.output == old(results.output + results.Delimiter()) + Report(a)
    {
      var parts := ReportParts(e, a);
      var n := results.ResultError(e.code, parts);
    }

    /** `SCPI_ErrorClear`. */
    method ErrorClear()
      requires Valid()
      modifies this`queue, fifo, heap, heap.data, regs
      ensures Valid() && Abs() == Apply(old(Abs()), Clear)
    {
      Drain();
      ghost var es := fifo.Contents();
      fifo.Clear();
      assert fifo.Contents() == es;
      ErrorEmitEmpty();
    }

    /** `SCPI_CoreCls`. */
    method CoreCls()
      requires Valid()
      modifies this`queue, this`snap, fifo, heap, heap.data, regs
      ensures Valid() && Abs() == Apply(old(Abs()), Cls)
    {
      ClsIs(Abs());
      ErrorClear();
      ClearGroups();
    }

    /** The loop of `SCPI_CoreCls`. */
    method ClearGroups()
      requires Valid()
      modifies this`snap, regs
      ensures Valid() && Abs() == ClearedEvents(old(Abs()))
    {
      ghost var s := Abs();
      for i := 0 to |GROUPS|
        invariant Valid() && Abs() == ClearedTo(s, i)
      {
        ClearGroup(GROUPS[i]);
      }
      ClearedFour(s);
    }

    /** The loop body of `SCPI_CoreCls`. */
    method ClearGroup(group: Group)
      requires Valid()
      modifies this`snap, regs
      ensures Valid() && Abs() == ClearedGroup(old(Abs()), group)
    {
      var event := GroupDetails(group).event;
      if event != STB {
        WriteRegister(event, {});
      }
    }

    /** A register write through `SCPI_RegSet`, as `*ESE`, `*SRE`, the enable commands and event queries make it. */
    method WriteRegister(name: Reg, val: Bits)
      requires Valid()
      modifies this`snap, regs
      ensures Valid() && Abs() == Apply(old(Abs()), Write(name, val))
    {
      ghost var was := regs.registers;
      regs.Set(Some(name), val);
      snap := SnapAfter(snap, was, regs.registers);
    }
  }

  lemma OldestText(q: seq<Err>, es: seq<Entry>)
    requires Matches(es, q) && q != []
    ensures es[0].code == q[0].code && (es[0].info.Some? <==> q[0].text.Some?)
    ensures Infos(es) == (if es[0].info.Some? then [es[0].info.value] else []) + Infos(es[1..])
    ensures Texts(q) == (if q[0].text.Some? then [q[0].text.value] else []) + Texts(q[1..])
  {
  }

  /** Texts and pointers of a queue and of the queue with one more entry. */
  lemma NewestText(q: seq<Err>, a: Err, es: seq<Entry>, e: Entry)
    requires Matches(es, q) && Matches(es + [e], q + [a])
    ensures e.info.Some? <==> a.text.Some?
    ensures Infos(es + [e]) == Infos(es) + (if e.info.Some? then [e.info.value] else [])
    ensures Texts(q + [a]) == Texts(q) + (if a.text.Some? then [a.text.value] else [])
    ensures |Infos(es)| == |Texts(q)|
  {
    assert (es + [e])[|es|] == e && (q + [a])[|q|] == a;
    MatchesSnoc(es, q, e, a);
    MatchesCount(es, q);
  }

  lemma {:induction false} MatchesCount(es: seq<Entry>, q: seq<Err>)
    requires Matches(es, q)
    ensures |Infos(es)| == |Texts(q)|
  {
    if q != [] {
      MatchesEnds(es, q);
      MatchesCount(es[1..], q[1..]);
    }
  }
}
