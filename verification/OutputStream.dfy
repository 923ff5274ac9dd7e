/** pb_ostream_t on a memory buffer, and the sizing stream that only counts. */
module OutputStream {
  import opened Bits
  import opened Wire
  import opened StructMemory
  import opened Encoding

  /** A stream's fields and the buffer it writes to. */
  datatype View = View(sizing: bool, mem: seq<byte>, state: nat, maxSize: nat, written: nat)

  /** There is room in the buffer for everything the budget still allows. */
  predicate Sound(o: View) {
    !o.sizing ==> o.written <= o.maxSize && o.state + (o.maxSize - o.written) <= |o.mem|
  }

  /** The stream can take all of b. */
  predicate Accepts(o: View, b: Option<seq<byte>>) {
    b.Some? && (o.sizing || o.written + |b.value| <= o.maxSize)
  }

  /** From o to o' the stream was asked to write b and answered ok: it answers yes exactly if it can
      take all of b, and then holds b where it stood. Yes or no, it touches no byte outside the
      stretch it advanced over, which never exceeds its budget. */
  ghost predicate Emits(o: View, ok: bool, b: Option<seq<byte>>, o': View) {
    && o'.sizing == o.sizing && o'.maxSize == o.maxSize && |o'.mem| == |o.mem| && Sound(o')
    && (ok <==> Accepts(o, b))
    && (ok ==> o'.written == o.written + |b.value|)
    && (!o.sizing ==> Within(o, o'))
    && (ok && !o.sizing ==> o'.state == o.state + |b.value| && o'.mem[o.state..o'.state] == b.value)
  }

  /** Only the bytes the stream advanced over may have changed. */
  ghost predicate Within(o: View, o': View) {
    && |o'.mem| == |o.mem| && o.written <= o'.written && o'.state - o.state == o'.written - o.written
    && o.written <= o.maxSize && o.state + (o.maxSize - o.written) <= |o.mem| && o'.written <= o'.maxSize == o.maxSize
    && forall k :: 0 <= k < |o.mem| && !(o.state <= k < o'.state) ==> o'.mem[k] == o.mem[k]
  }

  /** Success means: exactly b was stored, and nothing else changed. */
  lemma EmitsExactly(o: View, b: seq<byte>, o': View)
    requires Sound(o) && !o.sizing && o.written + |b| <= o.maxSize
    requires o' == o.(mem := Write(o.mem, o.state, b), state := o.state + |b|, written := o.written + |b|)
    ensures Emits(o, true, Some(b), o')
  {
  }

  /** Two writes in a row are one write of both. */
  lemma EmitsConcat(o: View, a: Option<seq<byte>>, o1: View, ok: bool, b: Option<seq<byte>>, o2: View)
    requires Sound(o) && Emits(o, true, a, o1) && Emits(o1, ok, b, o2)
    ensures Emits(o, ok, Concat(a, b), o2)
  {
    if !o.sizing && ok {
      assert o2.mem[o.state..o2.state] == o2.mem[o.state..o1.state] + o2.mem[o1.state..o2.state];
      assert o2.mem[o.state..o1.state] == o1.mem[o.state..o1.state];
    }
  }

  lemma EmitsFailure(o: View, a: Option<seq<byte>>, o1: View, b: Option<seq<byte>>)
    requires Sound(o) && Emits(o, false, a, o1)
    ensures Emits(o, false, Concat(a, b), o1)
  {
  }

  class OStream {
    /** null is the NULL callback of a sizing stream. */
    var buf: array?<byte>
    var state: nat
    var maxSize: nat
    var bytesWritten: nat

    function Now(): View
      reads this, buf
    {
      View(buf == null, if buf == null then [] else buf[..], state, maxSize, bytesWritten)
    }

    /** pb_ostream_from_buffer. */
    constructor FromBuffer(b: array<byte>)
      ensures buf == b && Now() == View(false, b[..], 0, b.Length, 0)
    {
      buf, state, maxSize, bytesWritten := b, 0, b.Length, 0;
    }

    /** PB_OSTREAM_SIZING. */
    constructor Sizing()
      ensures buf == null && Now() == View(true, [], 0, 0, 0)
    {
      buf, state, maxSize, bytesWritten := null, 0, 0, 0;
    }

    /** A substream that may write `size` bytes where the parent stands. */
    constructor Limited(parent: OStream, size: nat)
      ensures buf == parent.buf && Now() == View(parent.buf == null, parent.Now().mem, parent.state, size, 0)
    {
      buf, state, maxSize, bytesWritten := parent.buf, parent.state, size, 0;
    }

    /** buf_write. */
    method BufWrite(b: seq<byte>)
      requires buf != null && state + |b| <= buf.Length
      modifies this, buf
      ensures buf == old(buf) && buf[..] == StructMemory.Write(old(buf[..]), old(state), b)
      ensures state == old(state) + |b| && maxSize == old(maxSize) && bytesWritten == old(bytesWritten)
    {
      var dest := state;
      state := dest + |b|;
      var i := 0;
      while i < |b|
        invariant 0 <= i <= |b| && buf == old(buf)
        invariant state == old(state) + |b| && maxSize == old(maxSize) && bytesWritten == old(bytesWritten)
        invariant forall k :: 0 <= k < buf.Length ==>
          buf[k] == if dest <= k < dest + i then b[k - dest] else old(buf[..])[k]
      {
        buf[dest + i] := b[i];
        i := i + 1;
      }
    }

    /** pb_write. */
    method Write(b: seq<byte>) returns (ok: bool)
      requires Sound(Now())
      modifies this, buf
      ensures buf == old(buf) && Emits(old(Now()), ok, Some(b), Now())
    {
      ghost var o := Now();
      if |b| > 0 && buf != null {
        if bytesWritten + |b| > maxSize {
          return false;
        }
        BufWrite(b);
      }
      bytesWritten := bytesWritten + |b|;
      ok := true;
      if buf != null {
        if |b| == 0 { WriteNothing(o.mem, o.state, b); }
        EmitsExactly(o, b, Now());
      }
    }

    /** pb_write(stream, NULL, size) on a sizing stream. */
    method Count(size: nat) returns (ok: bool)
      requires buf == null
      modifies this
      ensures buf == null && ok
      ensures forall b: seq<byte> :: |b| == size ==> Emits(old(Now()), ok, Some(b), Now())
    {
      bytesWritten := bytesWritten + size;
      ok := true;
    }
  }

  lemma WriteNothing(m: seq<byte>, lo: nat, b: seq<byte>)
    requires b == [] && lo <= |m|
    ensures StructMemory.Write(m, lo, b) == m
  {
  }
}
