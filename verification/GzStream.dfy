/** The gzip stream buffer (gzstream.hh, gzstream.cc).  Reading keeps a putback area of up to four
    consumed bytes in front of each chunk; writing keeps one slot of the buffer in reserve for the byte
    that overflows it.  gzread and gzwrite are given by what they return. */
module GzStream {
  import opened Common

  const BUFFER_SIZE := 303
  const PUTBACK := 4

  datatype Got = Byte(value: byte) | EndOfFile

  /** What a put comes to.  Overrun: the store would be past the end of the buffer. */
  datatype PutResult = Stored | Failed | Overrun

  /** b with n bytes moved from just below g to just below PUTBACK. */
  function Moved(b: seq<byte>, g: nat, n: nat): seq<byte>
    requires PUTBACK <= g <= |b| && n <= PUTBACK
  {
    seq(|b|, i requires 0 <= i < |b| => if PUTBACK - n <= i < PUTBACK then b[i + g - PUTBACK] else b[i])
  }

  /** b with data stored behind the putback area. */
  function Filled(b: seq<byte>, data: seq<byte>): seq<byte>
    requires PUTBACK + |data| <= |b|
  {
    seq(|b|, i requires 0 <= i < |b| => if PUTBACK <= i < PUTBACK + |data| then data[i - PUTBACK] else b[i])
  }

  /** b[lo..hi] is the part of the file that ends at byte end. */
  ghost predicate Window(b: seq<byte>, lo: nat, hi: nat, source: seq<byte>, end: nat) {
    lo <= hi <= |b| && hi - lo <= end <= |source| &&
    forall i {:trigger Shows(b, hi, source, end, i)} :: lo <= i < hi ==> Shows(b, hi, source, end, i)
  }

  /** Slot i of a window that ends at slot hi with byte end of the file. */
  ghost predicate Shows(b: seq<byte>, hi: nat, source: seq<byte>, end: nat, i: nat) {
    i < hi <= |b| && hi - i <= end <= |source| && b[i] == source[end - (hi - i)]
  }

  /** After a refill the bytes moved and the bytes read are again one stretch of the file. */
  lemma RefillWindow(b: seq<byte>, lo: nat, hi: nat, n: nat, source: seq<byte>, end: nat, num: nat)
    requires PUTBACK <= hi && Window(b, lo, hi, source, end) && n <= PUTBACK && n <= hi - lo
    requires end + num <= |source| && PUTBACK + num <= |b|
    ensures Window(Filled(Moved(b, hi, n), source[end..end + num]), PUTBACK - n, PUTBACK + num, source, end + num)
  {
    var c := Filled(Moved(b, hi, n), source[end..end + num]);
    var top, last := PUTBACK + num, end + num;
    forall i | PUTBACK - n <= i < top ensures Shows(c, top, source, last, i) {
      if i < PUTBACK {
        assert c[i] == b[i + hi - PUTBACK];
        assert Shows(b, hi, source, end, i + hi - PUTBACK);
      } else {
        assert c[i] == source[end..end + num][i - PUTBACK];
      }
    }
  }

  /** Whatever was there before, the bytes read are. */
  lemma RefillChunk(b: seq<byte>, source: seq<byte>, end: nat, num: nat)
    requires end + num <= |source| && PUTBACK + num <= |b|
    ensures Window(Filled(b, source[end..end + num]), PUTBACK, PUTBACK + num, source, end + num)
  {
    var c := Filled(b, source[end..end + num]);
    var top, last := PUTBACK + num, end + num;
    forall i | PUTBACK <= i < top ensures Shows(c, top, source, last, i) {
      assert c[i] == source[end..end + num][i - PUTBACK];
    }
  }

  lemma RefillWindows(b: seq<byte>, lo: nat, hi: nat, source: seq<byte>, end: nat, num: nat)
    requires lo <= PUTBACK <= hi <= |b| && end + num <= |source| && PUTBACK + num <= |b|
    ensures var n := Min(PUTBACK, hi - lo);
            var c := Filled(Moved(b, hi, n), source[end..end + num]);
            && Window(c, PUTBACK, PUTBACK + num, source, end + num)
            && (Window(b, lo, hi, source, end) ==> Window(c, PUTBACK - n, PUTBACK + num, source, end + num))
  {
    var n := Min(PUTBACK, hi - lo);
    RefillChunk(Moved(b, hi, n), source, end, num);
    if Window(b, lo, hi, source, end) {
      RefillWindow(b, lo, hi, n, source, end, num);
    }
  }

  lemma MovedChunk(b: seq<byte>, g: nat, n: nat, source: seq<byte>, end: nat)
    requires n <= PUTBACK <= g <= |b| && Window(b, PUTBACK, g, source, end)
    ensures Window(Moved(b, g, n), PUTBACK, g, source, end)
  {
    forall i | PUTBACK <= i < g ensures Shows(Moved(b, g, n), g, source, end, i) {
      assert Shows(b, g, source, end, i);
    }
  }

  /** b when k of the n bytes below g are moved to just below PUTBACK. */
  function Copying(b: seq<byte>, g: nat, n: nat, k: nat): seq<byte>
    requires k <= n <= PUTBACK <= g <= |b|
  {
    seq(|b|, i requires 0 <= i < |b| => if PUTBACK - n <= i < PUTBACK - n + k then b[i + g - PUTBACK] else b[i])
  }

  lemma CopyEnds(b: seq<byte>, g: nat, n: nat)
    requires n <= PUTBACK <= g <= |b|
    ensures Copying(b, g, n, 0) == b && Copying(b, g, n, n) == Moved(b, g, n)
  {
  }

  predicate Inside(i: int, lo: int, hi: int) {
    lo <= i < hi
  }

  ghost predicate Overlap(lo: int, hi: int, lo': int, hi': int) {
    exists i :: Inside(i, lo, hi) && Inside(i, lo', hi')
  }

  /** The copy that moves the putback bytes overlaps itself exactly when the chunk before was shorter than
      what is kept of it, which memcpy does not allow. */
  lemma CopyOverlaps(g: nat, n: nat)
    requires n <= PUTBACK <= g
    ensures Overlap(PUTBACK - n, PUTBACK, g - n, g) <==> n > 0 && g - PUTBACK < n
  {
    if n > 0 && g - PUTBACK < n {
      assert Inside(g - n, PUTBACK - n, PUTBACK) && Inside(g - n, g - n, g);
    }
  }

  /** The file byte behind slot i of a window from there to hi that ends at byte end is the one that far
      below PUTBACK as well. */
  predicate Repeats(source: seq<byte>, end: nat, hi: nat, i: nat)
    requires i < PUTBACK <= hi && hi - i <= end <= |source|
  {
    source[end - (hi - i)] == source[end - (PUTBACK - i)]
  }

  /** At the end of the file the move has been made but the pointers stay: the part of the window from slot
      from on is still right exactly when the bytes it has in front of the last chunk repeat at the chunk's
      length. */
  lemma PutbackAtEnd(b: seq<byte>, lo: nat, from: nat, hi: nat, n: nat, source: seq<byte>, end: nat)
    requires lo <= from <= hi && lo <= PUTBACK <= hi && Window(b, lo, hi, source, end) && n == Min(PUTBACK, hi - lo)
    ensures Window(Moved(b, hi, n), from, hi, source, end) <==>
            forall i {:trigger Repeats(source, end, hi, i)} ::
              Max(from, PUTBACK - n) <= i < PUTBACK ==> Repeats(source, end, hi, i)
  {
    var c := Moved(b, hi, n);
    forall i | Max(from, PUTBACK - n) <= i < PUTBACK
      ensures Shows(c, hi, source, end, i) <==> Repeats(source, end, hi, i)
    {
      assert c[i] == b[i + hi - PUTBACK];
      assert Shows(b, hi, source, end, i + hi - PUTBACK);
    }
    forall i | from <= i < hi && !(Max(from, PUTBACK - n) <= i < PUTBACK) ensures Shows(c, hi, source, end, i) {
      assert c[i] == b[i];
      assert Shows(b, hi, source, end, i);
    }
  }

  /** The k bytes of b below hi, the nearest first. */
  function Below(b: seq<byte>, hi: nat, k: nat): seq<byte>
    requires k <= hi <= |b|
  {
    seq(k, i requires 0 <= i < k => b[hi - 1 - i])
  }

  /** Those bytes are the ones before byte end of the file exactly when they are a window on it. */
  lemma BelowWindow(b: seq<byte>, hi: nat, k: nat, source: seq<byte>, end: nat)
    requires k <= hi <= |b| && k <= end <= |source|
    ensures Below(b, hi, k) == Below(source, end, k) <==> Window(b, hi - k, hi, source, end)
  {
    if Below(b, hi, k) == Below(source, end, k) {
      forall i | hi - k <= i < hi ensures Shows(b, hi, source, end, i) {
        assert b[i] == Below(b, hi, k)[hi - 1 - i] == Below(source, end, k)[hi - 1 - i];
      }
    }
    if Window(b, hi - k, hi, source, end) {
      forall i | 0 <= i < k ensures Below(b, hi, k)[i] == Below(source, end, k)[i] {
        assert Shows(b, hi, source, end, hi - 1 - i);
      }
    }
  }

  function Optional(c: Option<byte>): seq<byte> {
    if c.Some? then [c.value] else []
  }

  class GzStreamBuf {
    const buffer: array<byte>
    var eback: nat
    var gptr: nat
    var egptr: nat
    var pptr: nat
    var isOpen: bool
    var input: bool
    var output: bool

    /** The decompressed file being read, how much of it gzread has delivered, what gzwrite has taken. */
    var source: seq<byte>
    var read: nat
    var sink: seq<byte>

    constructor ()
      ensures Readable() && Consumed() == read == 0 && !isOpen && eback == gptr == egptr == PUTBACK
      ensures Writable() && sink == [] && Pending() == [] && fresh(buffer)
    {
      buffer := new byte[BUFFER_SIZE];
      eback, gptr, egptr, pptr := PUTBACK, PUTBACK, PUTBACK, 0;
      isOpen, input, output := false, false, false;
      source, read, sink := [], 0, [];
    }

    // ---- reading ----

    /** How many bytes of the file the caller has consumed and not put back. */
    ghost function Consumed(): int
      reads this
    {
      read - (egptr - gptr)
    }

    /** The get area is a window on the file: from eback to gptr the bytes consumed last, from gptr to
        egptr the bytes that come next; what can be is kept for putback, up to four bytes. */
    ghost predicate Readable()
      reads this, buffer
    {
      Sound() && egptr - eback >= Min(PUTBACK, read) && Window(buffer[..], eback, egptr, source, read)
    }

    /** What holds also after the end of the file: the chunk itself is a window on the file. */
    ghost predicate Sound()
      reads this, buffer
    {
      buffer.Length == BUFFER_SIZE && eback <= PUTBACK <= egptr && eback <= gptr <= egptr && egptr - eback <= read &&
      Window(buffer[..], PUTBACK, egptr, source, read)
    }

    /** memcpy, byte by byte from the front, down to the end of the putback area. */
    method Memcpy(n: nat)
      requires n <= PUTBACK <= gptr <= buffer.Length
      modifies buffer
      ensures buffer[..] == Moved(old(buffer[..]), gptr, n)
    {
      ghost var first := buffer[..];
      var k := 0;
      CopyEnds(first, gptr, n);
      while k < n
        invariant 0 <= k <= n && buffer[..] == Copying(first, gptr, n, k)
      {
        CopyByte(n, k, first);
        k := k + 1;
      }
    }

    /** One assignment of memcpy. */
    method CopyByte(n: nat, k: nat, ghost first: seq<byte>)
      requires k < n <= PUTBACK <= gptr <= buffer.Length == |first|
      requires buffer[..] == Copying(first, gptr, n, k)
      modifies buffer
      ensures buffer[..] == Copying(first, gptr, n, k + 1)
    {
      ghost var before, g, m := buffer[..], gptr, PUTBACK - n + k;
      assert before[g - n + k] == first[g - n + k];
      buffer[PUTBACK - n + k] := buffer[gptr - n + k];
      assert buffer[..] == before[m := first[g - n + k]];
    }

    /** gzread delivering num bytes behind the putback area. */
    method GzRead(num: nat)
      requires PUTBACK + num <= buffer.Length && read + num <= |source|
      modifies buffer, this`read
      ensures read == old(read) + num
      ensures buffer[..] == Filled(old(buffer[..]), source[old(read)..old(read) + num])
    {
      var k := 0;
      while k < num
        invariant k <= num && read == old(read)
        invariant forall i :: 0 <= i < buffer.Length ==>
            buffer[i] == if PUTBACK <= i < PUTBACK + k then source[read + i - PUTBACK] else old(buffer[i])
      {
        buffer[PUTBACK + k] := source[read + k];
        k := k + 1;
      }
      read := read + num;
    }

    /** The part of underflow after its early returns; num is what gzread returns. */
    method Refill(num: int)
      requires Sound() && gptr == egptr && num <= BUFFER_SIZE - PUTBACK && num <= |source| - read
      modifies this`eback, this`gptr, this`egptr, this`read, buffer
      ensures Sound() && Consumed() == old(Consumed())
      ensures num > 0 ==>
                && eback + old(Min(PUTBACK, gptr - eback)) == gptr == PUTBACK && egptr == PUTBACK + num
                && read == old(read) + num && (old(Readable()) ==> Readable())
      ensures num <= 0 ==>
                unchanged(this`eback, this`gptr, this`egptr, this`read) &&
                buffer[..] == Moved(old(buffer[..]), gptr, Min(PUTBACK, gptr - eback))
    {
      var n := Min(PUTBACK, gptr - eback);
      if num <= 0 {
        Memcpy(n);
        MovedChunk(old(buffer[..]), gptr, n, source, read);
        return;
      }
      RefillMore(n, num);
    }

    /** The same when gzread delivers something. */
    method RefillMore(n: nat, num: nat)
      requires Sound() && gptr == egptr && n == Min(PUTBACK, gptr - eback)
      requires 0 < num <= BUFFER_SIZE - PUTBACK && num <= |source| - read
      modifies this`eback, this`gptr, this`egptr, this`read, buffer
      ensures Sound() && eback == PUTBACK - n && gptr == PUTBACK && egptr == PUTBACK + num && read == old(read) + num
      ensures old(Readable()) ==> Readable()
    {
      ghost var kept := Readable();
      RefillWindows(buffer[..], eback, gptr, source, read, num);
      Reload(n, num);
      assert Window(buffer[..], PUTBACK, egptr, source, read);
      assert kept ==> Window(buffer[..], eback, egptr, source, read);
    }

    /** memcpy, gzread and the new pointers. */
    method Reload(n: nat, num: nat)
      requires n <= PUTBACK <= gptr <= buffer.Length && PUTBACK + num <= buffer.Length && read + num <= |source|
      modifies this`eback, this`gptr, this`egptr, this`read, buffer
      ensures eback == PUTBACK - n && gptr == PUTBACK && egptr == PUTBACK + num && read == old(read) + num
      ensures buffer[..] == Filled(Moved(old(buffer[..]), old(gptr), n), source[old(read)..old(read) + num])
    {
      Memcpy(n);
      GzRead(num);
      eback, gptr, egptr := PUTBACK - n, PUTBACK, PUTBACK + num;
    }

    /** The byte at the read position, refilling when there is none. */
    method Underflow(num: int) returns (r: Got)
      requires Sound() && num <= BUFFER_SIZE - PUTBACK && num <= |source| - read
      modifies this`eback, this`gptr, this`egptr, this`read, buffer
      ensures Sound() && Consumed() == old(Consumed())
      ensures r.Byte? <==> old(gptr < egptr) || (input && isOpen && num > 0)
      ensures r.Byte? ==> gptr < egptr && r.value == buffer[gptr]
      ensures r.Byte? && old(Readable()) ==> Readable()
      ensures r.Byte? && (old(Readable()) || PUTBACK <= gptr) ==> r.value == source[Consumed()]
      ensures old(gptr < egptr) || !(input && isOpen) ==>
                unchanged(this`eback, this`gptr, this`egptr, this`read, buffer)
      ensures r.Byte? && old(gptr == egptr) ==>
                && eback + old(Min(PUTBACK, gptr - eback)) == gptr == PUTBACK && egptr == PUTBACK + num
                && read == old(read) + num
      ensures r.EndOfFile? && input && isOpen ==>
                unchanged(this`eback, this`gptr, this`egptr, this`read) &&
                buffer[..] == Moved(old(buffer[..]), gptr, Min(PUTBACK, gptr - eback))
    {
      if gptr < egptr {
        ByteAt();
        return Byte(buffer[gptr]);
      }
      if !input || !isOpen {
        return EndOfFile;
      }
      Refill(num);
      if num <= 0 {
        return EndOfFile;
      }
      ByteAt();
      return Byte(buffer[gptr]);
    }

    /** The byte at the read position is the next of the file, except perhaps in front of the last chunk
        after the end of the file. */
    lemma ByteAt()
      requires Sound() && gptr < egptr
      ensures 0 <= Consumed() < |source|
      ensures Readable() || PUTBACK <= gptr ==> buffer[gptr] == source[Consumed()]
    {
      if Readable() || PUTBACK <= gptr {
        assert Shows(buffer[..], egptr, source, read, gptr);
      }
    }

    /** sbumpc: consume a byte. */
    method Bump(num: int) returns (r: Got)
      requires Sound() && num <= BUFFER_SIZE - PUTBACK && num <= |source| - read
      modifies this`eback, this`gptr, this`egptr, this`read, buffer
      ensures Sound()
      ensures r.EndOfFile? <==> old(gptr == egptr) && !(input && isOpen && num > 0)
      ensures r.Byte? ==> Consumed() == old(Consumed()) + 1 && (old(Readable()) ==> Readable())
      ensures r.Byte? && (old(Readable()) || PUTBACK < gptr) ==>
                0 <= old(Consumed()) < |source| && r.value == source[old(Consumed())]
      ensures r.Byte? && old(gptr < egptr) ==>
                gptr == old(gptr) + 1 && unchanged(this`eback, this`egptr, this`read, buffer)
      ensures r.Byte? && old(gptr == egptr) ==>
                && eback + old(Min(PUTBACK, gptr - eback)) == PUTBACK && gptr == PUTBACK + 1 && egptr == PUTBACK + num
                && read == old(read) + num
      ensures r.EndOfFile? ==> unchanged(this`eback, this`gptr, this`egptr, this`read)
      ensures r.EndOfFile? && input && isOpen ==>
                buffer[..] == Moved(old(buffer[..]), gptr, Min(PUTBACK, gptr - eback))
    {
      r := Underflow(num);
      if r.Byte? {
        gptr := gptr + 1;
      }
    }

    /** sungetc: step back into the putback area.  What is put back is the byte consumed last, unless the end
        of the file was met; then that is sure of the bytes of the last chunk only. */
    method Unget() returns (r: Got)
      requires Sound()
      modifies this`gptr
      ensures Sound() && (old(Readable()) ==> Readable())
      ensures r.Byte? <==> old(eback < gptr)
      ensures r.Byte? ==> Consumed() == old(Consumed()) - 1 && gptr == old(gptr) - 1 && r.value == buffer[gptr]
      ensures r.Byte? && (old(Readable()) || PUTBACK <= gptr) ==> r.value == source[Consumed()]
      ensures r.EndOfFile? ==> gptr == old(gptr)
    {
      if eback < gptr {
        gptr := gptr - 1;
        ByteAt();
        return Byte(buffer[gptr]);
      }
      return EndOfFile;
    }

    /** Putting back k bytes, one after the other. */
    method UngetMany(k: nat) returns (got: seq<byte>)
      requires Sound() && k <= gptr - eback
      modifies this`gptr
      ensures Sound() && gptr == old(gptr) - k
      ensures got == Below(buffer[..], old(gptr), k)
    {
      got := [];
      var i := 0;
      while i < k
        invariant 0 <= i <= k && Sound() && gptr == old(gptr) - i
        invariant got == Below(buffer[..], old(gptr), i)
      {
        var r := Unget();
        got := got + [r.value];
        i := i + 1;
      }
    }

    /** Running into the end of the file and putting back k bytes: they are the last k bytes of the file
        exactly when those in front of the last chunk repeat at its length. */
    method EndThenUnget(k: nat) returns (got: seq<byte>)
      requires Readable() && gptr == egptr && input && isOpen && k <= gptr - eback
      modifies this`eback, this`gptr, this`egptr, this`read, buffer
      ensures read == old(read) && k <= read
      ensures got == Below(source, read, k) <==>
              forall i {:trigger Repeats(source, read, old(gptr), i)} ::
                Max(old(gptr) - k, PUTBACK - Min(PUTBACK, old(gptr - eback))) <= i < PUTBACK ==>
                  Repeats(source, read, old(gptr), i)
    {
      PutbackAtEnd(buffer[..], eback, gptr - k, gptr, Min(PUTBACK, gptr - eback), source, read);
      var r := Bump(0);
      BelowWindow(buffer[..], gptr, k, source, read);
      got := UngetMany(k);
    }

    /** Reading to the end, gzread returning chunks of any sizes and nothing only at the end of the file. */
    method ReadAll(chunks: nat -> nat) returns (got: seq<byte>)
      requires Readable() && input && isOpen
      requires forall i: nat :: 1 <= chunks(i) <= BUFFER_SIZE - PUTBACK
      modifies this`eback, this`gptr, this`egptr, this`read, buffer
      ensures 0 <= old(Consumed()) <= |source| && got == source[old(Consumed())..]
    {
      ghost var start := Consumed();
      got := [];
      var more := true;
      while more
        invariant more ==> Readable() && Consumed() == start + |got|
        invariant start + |got| <= |source| && got == source[start..start + |got|]
        invariant !more ==> start + |got| == |source|
        decreases more, |source| - |got|
      {
        ghost var before := Consumed();
        var num: int := Min(chunks(read), |source| - read);
        var r := Bump(num);
        match r
        case Byte(b) =>
          got := got + [b];
        case EndOfFile =>
          more := false;
      }
    }

    // ---- writing ----

    /** The put pointer is no further than the reserved last slot. */
    ghost predicate Writable()
      reads this
    {
      buffer.Length == BUFFER_SIZE && pptr < BUFFER_SIZE
    }

    ghost function Pending(): seq<byte>
      requires pptr <= buffer.Length
      reads this, buffer
    {
      buffer[..pptr]
    }

    /** All bytes put so far. */
    ghost function Put(): seq<byte>
      requires pptr <= buffer.Length
      reads this, buffer
    {
      sink + Pending()
    }

    /** gzwrite of the whole put area; ok says whether it reports all of it as written, and taken how many
        bytes reach the file when it does not. */
    method FlushBuffer(ok: bool, taken: nat) returns (flushed: bool)
      requires pptr <= buffer.Length
      modifies this`pptr, this`sink
      ensures flushed == ok
      ensures ok ==> sink == old(Put()) && pptr == 0
      ensures !ok ==> pptr == old(pptr) && sink == old(sink) + Pending()[..Min(taken, pptr)]
    {
      sink := sink + buffer[..if ok then pptr else Min(taken, pptr)];
      if ok {
        pptr := 0;
      } else {
        assert buffer[..pptr][..Min(taken, pptr)] == buffer[..Min(taken, pptr)];
      }
      flushed := ok;
    }

    /** c is a byte, or None for EOF. */
    method Overflow(c: Option<byte>, ok: bool, taken: nat) returns (r: PutResult)
      requires buffer.Length == BUFFER_SIZE && pptr <= BUFFER_SIZE
      modifies this`pptr, this`sink, buffer
      ensures pptr <= BUFFER_SIZE
      ensures r == Overrun <==> output && isOpen && c.Some? && old(pptr) == BUFFER_SIZE
      ensures r == Stored <==> output && isOpen && ok && (c.Some? ==> old(Writable()))
      ensures r == Stored ==> sink == old(Put()) + Optional(c) && pptr == 0
      ensures (r == Failed && !(output && isOpen)) || r == Overrun ==> unchanged(this`pptr, this`sink, buffer)
      ensures r == Failed && output && isOpen ==>
                Pending() == old(Pending()) + Optional(c) && sink == old(sink) + Pending()[..Min(taken, pptr)]
    {
      if !output || !isOpen {
        return Failed;
      }
      if c.Some? {
        if pptr == BUFFER_SIZE {
          return Overrun;
        }
        buffer[pptr] := c.value;
        pptr := pptr + 1;
        assert buffer[..pptr] == old(buffer[..pptr]) + [c.value];
      }
      var flushed := FlushBuffer(ok, taken);
      r := if flushed then Stored else Failed;
    }

    /** sputc: store below the reserved slot, else overflow. */
    method PutByte(c: byte, ok: bool, taken: nat) returns (r: PutResult)
      requires buffer.Length == BUFFER_SIZE && pptr <= BUFFER_SIZE && output && isOpen
      modifies this`pptr, this`sink, buffer
      ensures pptr <= BUFFER_SIZE
      ensures r == Overrun <==> old(pptr) == BUFFER_SIZE
      ensures r == Overrun ==> unchanged(this`pptr, this`sink, buffer)
      ensures r == Stored <==> old(Writable()) && (ok || old(pptr) < BUFFER_SIZE - 1)
      ensures r == Stored ==> Writable() && Put() == old(Put()) + [c]
      ensures r == Failed <==> old(pptr) == BUFFER_SIZE - 1 && !ok
      ensures r == Failed ==>
                && pptr == BUFFER_SIZE && Pending() == old(Pending()) + [c]
                && sink == old(sink) + Pending()[..Min(taken, pptr)]
    {
      if pptr < BUFFER_SIZE - 1 {
        buffer[pptr] := c;
        pptr := pptr + 1;
        assert buffer[..pptr] == old(buffer[..pptr]) + [c];
        return Stored;
      }
      r := Overflow(Some(c), ok, taken);
    }

    method Sync(ok: bool, taken: nat) returns (synced: bool)
      requires pptr <= buffer.Length
      modifies this`pptr, this`sink
      ensures synced <==> ok || old(pptr) == 0
      ensures synced ==> sink == old(Put()) && pptr == 0
      ensures !synced ==> pptr == old(pptr) && sink == old(sink) + Pending()[..Min(taken, pptr)]
    {
      synced := true;
      if pptr > 0 {
        synced := FlushBuffer(ok, taken);
      }
    }

    /** Synchronising again after a write that failed: what reached the file the first time is written
        again, so the file receives exactly the bytes put if and only if none did. */
    method SyncAgain(taken: nat)
      requires 0 < pptr <= buffer.Length
      modifies this`pptr, this`sink
      ensures pptr == 0
      ensures sink == old(Put()) <==> taken == 0
    {
      var synced := Sync(false, taken);
      synced := Sync(true, 0);
    }

    /** Writing any bytes and synchronising, every gzwrite taking everything. */
    method WriteAll(data: seq<byte>)
      requires Writable() && output && isOpen
      modifies this`pptr, this`sink, buffer
      ensures Writable() && sink == old(Put()) + data && pptr == 0
    {
      var i := 0;
      while i < |data|
        invariant i <= |data| && Writable() && Put() == old(Put()) + data[..i]
      {
        var r := PutByte(data[i], true, 0);
        assert data[..i + 1] == data[..i] + [data[i]];
        i := i + 1;
      }
      var synced := Sync(true, 0);
      assert data[..i] == data;
    }
  }

  /** A file of five bytes that arrives in chunks of four and one: at its end the last byte is put back
      twice, instead of the last two. */
  method ShortLastChunk(file: seq<byte>) returns (first: Got, second: Got)
    requires |file| == 5
    ensures first == Byte(file[4]) && second == Byte(file[4])
  {
    var s := new GzStreamBuf();
    assert s.gptr == s.egptr && s.read == 0;
    s.source, s.input, s.isOpen := file, true, true;
    ReadFive(s);
    ghost var before := s.buffer[..];
    var b := s.Bump(0);
    assert s.buffer[..][3] == before[4];
    first := s.Unget();
    second := s.Unget();
  }

  method ReadFive(s: GzStreamBuf)
    requires s.Readable() && s.read == 0 && s.gptr == s.egptr == s.eback == PUTBACK
    requires |s.source| == 5 && s.input && s.isOpen
    modifies s`eback, s`gptr, s`egptr, s`read, s.buffer
    ensures s.Readable() && s.read == 5 && s.eback == 0 && s.gptr == s.egptr == 5
    ensures s.buffer[4] == s.source[4]
  {
    var b := s.Bump(4);
    Drain(s);
    b := s.Bump(1);
    assert Shows(s.buffer[..], s.egptr, s.source, s.read, 4);
  }

  /** Consuming what is left of the chunk. */
  method Drain(s: GzStreamBuf)
    requires s.Readable()
    modifies s`eback, s`gptr, s`egptr, s`read, s.buffer
    ensures s.Readable() && s.gptr == s.egptr == old(s.egptr) && s.eback == old(s.eback) && s.read == old(s.read)
  {
    while s.gptr < s.egptr
      invariant s.Readable() && s.egptr == old(s.egptr) && s.eback == old(s.eback) && s.read == old(s.read)
      decreases s.egptr - s.gptr
    {
      var b := s.Bump(0);
    }
  }
}
