/** A byte FIFO for one-way data flow between routines running at different
    interrupt priorities: a fixed block of memory, a reader and a writer cursor
    that wrap around it, and a shared count of bytes present.
    Pointers into the memory are modelled as indices into `mem`. */
module FifoQueue {

  /** an `unsigned char` */
  newtype byte = x: int | 0 <= x < 256

  function Min(a: nat, b: nat): nat { if a <= b then a else b }

  class Fifo {
    var count: nat
    var reader: nat
    var writer: nat
    /** the memory */
    const mem: array<byte>
    const quantity: nat
    /** guard flags of the Busy-reporting variants, one per role */
    var inserting: bool
    var removing: bool

    /** the bytes present, oldest first */
    ghost var Contents: seq<byte>
    /** every byte accepted since construction or the last clear, and every byte handed out */
    ghost var Accepted: seq<byte>
    ghost var Delivered: seq<byte>

    ghost predicate Valid()
      reads this, mem
    {
      && mem.Length == quantity
      && Inv(mem[..], reader, writer, count, Contents, Accepted, Delivered)
    }

    /** binds the fifo to caller-provided memory of exactly `quantity` bytes, empty */
    constructor (quantity: nat, mem: array<byte>)
      requires mem.Length == quantity
      ensures Valid()
      ensures this.quantity == quantity && this.mem == mem
      ensures Contents == [] && Accepted == [] && Delivered == []
      ensures !inserting && !removing
      ensures mem[..] == old(mem[..])
    {
      this.quantity := quantity;
      this.mem := mem;
      count, reader, writer := 0, 0, 0;
      inserting, removing := false, false;
      Contents, Accepted, Delivered := [], [], [];
    }

    /** circular increment of a cursor: wraps to the start exactly when the
        increment reaches the end of the memory */
    function IncrementPointer(pointer: nat): (r: nat)
      requires pointer < quantity
      ensures r < quantity
      ensures r == 0 <==> pointer + 1 == quantity
    {
      Next(pointer, quantity)
    }

    /** the circular increment is the increment modulo the memory size */
    lemma IncrementIsModular(pointer: nat)
      requires pointer < quantity
      ensures IncrementPointer(pointer) == (pointer + 1) % quantity
    {
    }

    /** forget the content */
    method Clear()
      requires Valid()
      modifies this
      ensures Valid()
      ensures count == 0 && reader == 0 && writer == 0
      ensures Contents == [] && Accepted == [] && Delivered == []
      ensures inserting == old(inserting) && removing == old(removing)
      ensures Available() == 0 && Free() == quantity
    {
      count, reader, writer := 0, 0, 0;
      Contents, Accepted, Delivered := [], [], [];
    }

    /** forget the content and overwrite every byte of the memory with `pattern` */
    method Wipe(pattern: byte)
      requires Valid()
      modifies this, mem
      ensures Valid()
      ensures count == 0 && reader == 0 && writer == 0
      ensures Contents == [] && Accepted == [] && Delivered == []
      ensures inserting == old(inserting) && removing == old(removing)
      ensures Available() == 0 && Free() == quantity
      ensures forall i :: 0 <= i < mem.Length ==> mem[i] == pattern
    {
      Clear();
      var i := 0;
      while i < quantity
        modifies mem
        invariant 0 <= i <= quantity
        invariant forall k :: 0 <= k < i ==> mem[k] == pattern
      {
        mem[i] := pattern;
        i := i + 1;
      }
    }

    /** bytes present; a hint only, since the other side may be running */
    function Available(): (r: nat)
      reads this, mem
      requires Valid()
      ensures r == |Contents|
      ensures r <= quantity
    {
      count
    }

    /** bytes empty; a hint only, since the other side may be running */
    function Free(): (r: nat)
      reads this, mem
      requires Valid()
      ensures r + |Contents| == quantity
      ensures r + Available() == quantity
    {
      quantity - count
    }

    /** puts a byte into the memory, returns whether there was room */
    method Insert(incoming: byte) returns (ok: bool)
      requires Valid()
      modifies this, mem
      ensures Valid()
      ensures ok <==> old(count) < quantity
      ensures ok ==> (Contents == old(Contents) + [incoming]
                  && Accepted == old(Accepted) + [incoming]
                  && writer == IncrementPointer(old(writer))
                  && count == old(count) + 1)
      ensures !ok ==> (Contents == old(Contents) && Accepted == old(Accepted)
                   && unchanged(mem) && writer == old(writer) && count == old(count))
      ensures reader == old(reader) && Delivered == old(Delivered)
      ensures inserting == old(inserting) && removing == old(removing)
    {
      if count == quantity {
        return false;
      }
      InvPush(mem[..], reader, writer, count, Contents, Accepted, Delivered, incoming);
      mem[writer] := incoming;
      writer := IncrementPointer(writer);
      count := count + 1;
      Contents := Contents + [incoming];
      Accepted := Accepted + [incoming];
      ok := true;
    }

    /** insert guarded against a second producer: -1 when full, -2 when
        another insert is in progress, 0 on success */
    method AttemptInsert(incoming: byte) returns (r: int)
      requires Valid()
      modifies this, mem
      ensures Valid()
      ensures r == (if old(inserting) then -2 else if old(count) == quantity then -1 else 0)
      ensures r == 0 ==> (Contents == old(Contents) + [incoming]
                      && Accepted == old(Accepted) + [incoming]
                      && writer == IncrementPointer(old(writer))
                      && count == old(count) + 1)
      ensures r != 0 ==> (Contents == old(Contents) && Accepted == old(Accepted)
                      && unchanged(mem) && writer == old(writer) && count == old(count))
      ensures reader == old(reader) && Delivered == old(Delivered)
      ensures inserting == old(inserting) && removing == old(removing)
    {
      if inserting {
        return -2;
      }
      inserting := true;
      var ok := Insert(incoming);
      inserting := false;
      r := if ok then 0 else -1;
    }

    /** reads and removes a byte, returns it, or -1 if there wasn't one */
    method Remove() returns (r: int)
      requires Valid()
      modifies this
      ensures Valid()
      ensures old(count) == 0 ==> (r == -1 && Contents == old(Contents)
                               && Delivered == old(Delivered) && reader == old(reader) && count == old(count))
      ensures old(count) > 0 ==> (0 <= r < 256 && r == old(Contents)[0] as int
                              && Contents == old(Contents)[1..]
                              && Delivered == old(Delivered) + [old(Contents)[0]]
                              && reader == IncrementPointer(old(reader))
                              && count == old(count) - 1)
      ensures writer == old(writer) && Accepted == old(Accepted)
      ensures inserting == old(inserting) && removing == old(removing)
    {
      if count == 0 {
        return -1;
      }
      InvDrop(mem[..], reader, writer, count, Contents, Accepted, Delivered);
      var first := mem[reader];
      reader := IncrementPointer(reader);
      count := count - 1;
      Delivered := Delivered + [Contents[0]];
      Contents := Contents[1..];
      r := first as int;
    }

    /** remove guarded against a second consumer: -1 when empty, -2 when
        another remove is in progress, else the byte removed */
    method AttemptRemove() returns (r: int)
      requires Valid()
      modifies this
      ensures Valid()
      ensures old(removing) ==> r == -2
      ensures !old(removing) && old(count) == 0 ==> r == -1
      ensures !old(removing) && old(count) > 0 ==> r == old(Contents)[0] as int
      ensures r >= 0 ==> (Contents == old(Contents)[1..]
                      && Delivered == old(Delivered) + [old(Contents)[0]]
                      && reader == IncrementPointer(old(reader))
                      && count == old(count) - 1)
      ensures r < 0 ==> (Contents == old(Contents) && Delivered == old(Delivered)
                     && reader == old(reader) && count == old(count))
      ensures writer == old(writer) && Accepted == old(Accepted)
      ensures inserting == old(inserting) && removing == old(removing)
    {
      if removing {
        return -2;
      }
      removing := true;
      r := Remove();
      removing := false;
    }

    /** inserts bytes of `block` in order until `length` are in or the fifo is
        full, returns how many did NOT get pushed */
    method Stuff(block: seq<byte>, length: nat) returns (notPushed: nat)
      requires Valid()
      requires length <= |block|
      modifies this, mem
      ensures Valid()
      ensures notPushed == length - Min(length, old(quantity - count))
      ensures Contents == old(Contents) + block[..length - notPushed]
      ensures Accepted == old(Accepted) + block[..length - notPushed]
      ensures count == old(count) + (length - notPushed)
      ensures length == 0 ==> unchanged(this) && unchanged(mem)
      ensures reader == old(reader) && Delivered == old(Delivered)
      ensures inserting == old(inserting) && removing == old(removing)
    {
      if length == 0 {
        return 0;
      }
      var i := 0;
      while i < length
        invariant Valid()
        invariant 0 <= i <= length
        invariant Contents == old(Contents) + block[..i]
        invariant Accepted == old(Accepted) + block[..i]
        invariant reader == old(reader) && Delivered == old(Delivered)
        invariant inserting == old(inserting) && removing == old(removing)
      {
        var ok := Insert(block[i]);
        if !ok {
          assert i == old(quantity - count);
          break;
        }
        assert block[..i + 1] == block[..i] + [block[i]];
        i := i + 1;
      }
      notPushed := length - i;
    }

    /** diagnostic: 0 when the chosen cursor is inside the memory, -1 below it, 1 past its end */
    function BoundsError(forReads: bool): (r: int)
      reads this
      ensures r == 0 <==> (if forReads then reader else writer) < quantity
      ensures -1 <= r <= 1
    {
      Locate(if forReads then reader else writer, quantity)
    }
  }

  /** the cursor step after `r` in memory of `size` bytes, wrapping to the start */
  function Next(r: nat, size: nat): nat
  {
    if r + 1 >= size then 0 else r + 1
  }

  /** the `c` bytes of `s` from index `r` on, wrapping around its end */
  ghost function Window(s: seq<byte>, r: nat, c: nat): (w: seq<byte>)
    requires c == 0 || r < |s|
    ensures |w| == c
    decreases c
  {
    if c == 0 then [] else [s[r]] + Window(s, Next(r, |s|), c - 1)
  }

  /** the slot `c` places after `r`, circularly */
  function Slot(r: nat, c: nat, size: nat): nat
  {
    if r + c < size then r + c else r + c - size
  }

  /** storing a byte in the slot just past a window appends it to the window */
  lemma {:induction false} WindowPush(s: seq<byte>, r: nat, c: nat, b: byte)
    requires r < |s| && c < |s|
    ensures Window(s[Slot(r, c, |s|) := b], r, c + 1) == Window(s, r, c) + [b]
    decreases c
  {
    var t := s[Slot(r, c, |s|) := b];
    if c > 0 {
      assert Slot(Next(r, |s|), c - 1, |s|) == Slot(r, c, |s|);
      WindowPush(s, Next(r, |s|), c - 1, b);
      assert t[r] == s[r];
      assert Window(t, r, c + 1) == [s[r]] + (Window(s, Next(r, |s|), c - 1) + [b]);
    }
  }

  /** the fifo's invariant over its memory `s`, cursors, count and histories:
      the cursors lie inside the memory, the writer is `count` places after
      the reader (circularly), the bytes present are the window between
      them, and every byte accepted was either handed out or is still present */
  ghost predicate Inv(s: seq<byte>, reader: nat, writer: nat, count: nat,
                      contents: seq<byte>, accepted: seq<byte>, delivered: seq<byte>)
  {
    && count == |contents| && count <= |s|
    && (|s| == 0 ==> reader == 0 && writer == 0)
    && (|s| > 0 ==> reader < |s| && writer < |s|)
    && writer == Slot(reader, count, |s|)
    && contents == Window(s, reader, count)
    && accepted == delivered + contents
  }

  /** removing the oldest byte, at the reader, and advancing the reader keeps the invariant */
  lemma InvDrop(s: seq<byte>, reader: nat, writer: nat, count: nat,
                contents: seq<byte>, accepted: seq<byte>, delivered: seq<byte>)
    requires Inv(s, reader, writer, count, contents, accepted, delivered) && count > 0
    ensures contents[0] == s[reader]
    ensures Inv(s, Next(reader, |s|), writer, count - 1, contents[1..], accepted, delivered + [contents[0]])
  {
    assert contents == [contents[0]] + contents[1..];
    assert accepted == (delivered + [contents[0]]) + contents[1..];
  }

  /** storing a byte at the writer and advancing the writer keeps the invariant
      and appends the byte to the contents and to the accepted bytes */
  lemma InvPush(s: seq<byte>, reader: nat, writer: nat, count: nat,
                contents: seq<byte>, accepted: seq<byte>, delivered: seq<byte>, b: byte)
    requires Inv(s, reader, writer, count, contents, accepted, delivered) && count < |s|
    ensures Inv(s[writer := b], reader, Next(writer, |s|), count + 1, contents + [b], accepted + [b], delivered)
  {
    WindowPush(s, reader, count, b);
  }

  /** where a cursor lies relative to memory of `quantity` bytes */
  function Locate(pointer: int, quantity: nat): (r: int)
    ensures r == 0 <==> 0 <= pointer < quantity
    ensures r == -1 <==> pointer < 0
    ensures r == 1 <==> pointer >= quantity
  {
    if pointer < 0 then -1 else if pointer >= quantity then 1 else 0
  }

  /** a valid non-empty fifo never reports a cursor out of bounds */
  lemma BoundsNeverViolated(f: Fifo, forReads: bool)
    requires f.Valid() && f.quantity > 0
    ensures f.BoundsError(forReads) == 0
  {
  }

  /** the bytes handed out so far are a prefix of the bytes accepted so far:
      nothing is duplicated, reordered or made up */
  lemma DeliveredIsPrefix(f: Fifo)
    requires f.Valid()
    ensures f.Delivered <= f.Accepted
    ensures f.Accepted[|f.Delivered|..] == f.Contents
  {
  }

  /** memory allocated together with its fifo, with assignment as insert and
      conversion to int as remove */
  class FifoBuffer {
    const fifo: Fifo

    ghost predicate Valid()
      reads this, fifo, fifo.mem
    {
      fifo.Valid()
    }

    constructor (size: nat)
      ensures Valid() && fresh(fifo) && fresh(fifo.mem)
      ensures fifo.quantity == size
      ensures fifo.Contents == [] && fifo.Accepted == [] && fifo.Delivered == []
      ensures !fifo.inserting && !fifo.removing
    {
      var buf := new byte[size];
      fifo := new Fifo(size, buf);
    }

    /** `buffer = byte`: insert, returning whether there was room */
    method Assign(received: byte) returns (ok: bool)
      requires Valid()
      modifies fifo, fifo.mem
      ensures Valid()
      ensures ok <==> old(|fifo.Contents|) < fifo.quantity
      ensures fifo.Contents == if ok then old(fifo.Contents) + [received] else old(fifo.Contents)
      ensures fifo.Accepted == if ok then old(fifo.Accepted) + [received] else old(fifo.Accepted)
      ensures fifo.Delivered == old(fifo.Delivered)
      ensures fifo.inserting == old(fifo.inserting) && fifo.removing == old(fifo.removing)
    {
      ok := fifo.Insert(received);
    }

    /** `int(buffer)`: remove, returning the byte or -1 */
    method AsInt() returns (r: int)
      requires Valid()
      modifies fifo
      ensures Valid()
      ensures old(fifo.Contents) == [] ==> r == -1 && fifo.Contents == []
      ensures old(fifo.Contents) != [] ==> (r == old(fifo.Contents)[0] as int
                                         && fifo.Contents == old(fifo.Contents)[1..])
      ensures fifo.Delivered == if old(fifo.Contents) == [] then old(fifo.Delivered)
                                else old(fifo.Delivered) + [old(fifo.Contents)[0]]
      ensures fifo.Accepted == old(fifo.Accepted)
      ensures fifo.inserting == old(fifo.inserting) && fifo.removing == old(fifo.removing)
    {
      r := fifo.Remove();
    }
  }

  /** an interrupt that arrives while an attempt_insert holds its guard and
      itself calls attempt_insert is told Busy and changes nothing; the
      interrupted insert then completes */
  method InsertPreempted(f: Fifo, outer: byte, nested: byte) returns (outerResult: int, nestedResult: int)
    requires f.Valid() && !f.inserting
    modifies f, f.mem
    ensures f.Valid() && !f.inserting
    ensures nestedResult == -2
    ensures outerResult == (if old(f.count) == f.quantity then -1 else 0)
    ensures f.Contents == if outerResult == 0 then old(f.Contents) + [outer] else old(f.Contents)
  {
    f.inserting := true;
    nestedResult := f.AttemptInsert(nested);
    var ok := f.Insert(outer);
    f.inserting := false;
    outerResult := if ok then 0 else -1;
  }
}
