/** The ring buffer of `fifo.c`. */
module Fifo {
  import opened Base

  class Fifo<T> {
    var wr: nat
    var rd: nat
    var count: nat
    const data: array<T>

    ghost predicate Valid()
      reads this
    {
      && count <= data.Length
      && (if data.Length == 0 then wr == 0 && rd == 0
          else rd < data.Length && wr == Wrap(rd + count, data.Length))
    }

    /** The queued elements, oldest first. */
    ghost function Contents(): (s: seq<T>)
      requires Valid()
      reads this, data
      ensures |s| == count
      ensures forall i | 0 <= i < count :: s[i] == data[Wrap(rd + i, data.Length)]
    {
      seq(count, i requires 0 <= i < count && Valid() reads this, data => data[Wrap(rd + i, data.Length)])
    }

    constructor (data: array<T>)
      ensures Valid() && this.data == data
      ensures Contents() == []
    {
      this.data := data;
      wr, rd, count := 0, 0, 0;
    }

    method Clear()
      requires Valid()
      modifies this
      ensures Valid() && Contents() == []
    {
      wr, rd, count := 0, 0, 0;
    }

    method IsEmpty() returns (r: bool)
      requires Valid()
      ensures r <==> Contents() == []
    {
      r := count == 0;
    }

    method IsFull() returns (r: bool)
      requires Valid()
      ensures r <==> |Contents()| == data.Length
    {
      r := count == data.Length;
    }

    /** Appends an element, or refuses and changes nothing when the ring is full. */
    method Add(value: T) returns (ok: bool)
      requires Valid()
      modifies this, data
      ensures Valid()
      ensures ok <==> |old(Contents())| < data.Length
      ensures Contents() == if ok then old(Contents()) + [value] else old(Contents())
    {
      var full := IsFull();
      if full {
        return false;
      }
      data[wr] := value;
      ModIsWrap(wr + 1, data.Length);
      wr := (wr + 1) % data.Length;
      count := count + 1;
      return true;
    }

    /** Removes the oldest element. */
    method Remove() returns (r: Option<T>)
      requires Valid()
      modifies this
      ensures Valid()
      ensures r.Some? <==> old(Contents()) != []
      ensures r.Some? ==> old(Contents()) == [r.value] + Contents()
      ensures r.None? ==> Contents() == []
    {
      var empty := IsEmpty();
      if empty {
        return None;
      }
      r := Some(data[rd]);
      ModIsWrap(rd + 1, data.Length);
      rd := (rd + 1) % data.Length;
      count := count - 1;
    }

    /** Removes the newest element. */
    method RemoveLast() returns (r: Option<T>)
      requires Valid()
      modifies this
      ensures Valid()
      ensures r.Some? <==> old(Contents()) != []
      ensures r.Some? ==> old(Contents()) == Contents() + [r.value]
      ensures r.None? ==> Contents() == []
    {
      var empty := IsEmpty();
      if empty {
        return None;
      }
      ModIsWrap(wr + data.Length - 1, data.Length);
      wr := (wr + data.Length - 1) % data.Length;
      r := Some(data[wr]);
      count := count - 1;
    }
  }
}
