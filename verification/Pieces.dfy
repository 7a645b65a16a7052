/** A file image as a row of pieces with fill characters between them. */
module Pieces {
  import opened Common

  datatype Piece = Piece(at: nat, bytes: seq<byte>) {
    function End(): nat { at + |bytes| }
  }

  /** Each piece starts at or after the end of the one before it. */
  ghost predicate Ordered(ps: seq<Piece>, start: nat) {
    ps == [] || (start <= ps[0].at && Ordered(ps[1..], ps[0].End()))
  }

  function EndOf(ps: seq<Piece>, start: nat): nat {
    if ps == [] then start else EndOf(ps[1..], ps[0].End())
  }

  /** The bytes from `start` to the end of the last piece. */
  function Render(ps: seq<Piece>, start: nat, fill: byte): seq<byte>
    requires Ordered(ps, start)
  {
    if ps == [] then []
    else Repeat(fill, ps[0].at - start) + ps[0].bytes + Render(ps[1..], ps[0].End(), fill)
  }

  lemma {:induction false} RenderLength(ps: seq<Piece>, start: nat, fill: byte)
    requires Ordered(ps, start)
    ensures start <= EndOf(ps, start) && |Render(ps, start, fill)| == EndOf(ps, start) - start
  {
    if ps != [] {
      RenderLength(ps[1..], ps[0].End(), fill);
    }
  }

  lemma {:induction false} PieceInside(ps: seq<Piece>, start: nat, i: nat)
    requires Ordered(ps, start) && i < |ps|
    ensures start <= ps[i].at && ps[i].End() <= EndOf(ps, start)
  {
    if i == 0 {
      RenderLength(ps[1..], ps[0].End(), 0);
    } else {
      PieceInside(ps[1..], ps[0].End(), i - 1);
    }
  }

  lemma MiddleSlice<T>(a: seq<T>, b: seq<T>, c: seq<T>)
    ensures (a + b + c)[|a|..|a| + |b|] == b
  {
  }

  /** Every piece lands at its own offset. */
  lemma {:induction false} PieceLands(ps: seq<Piece>, start: nat, fill: byte, i: nat)
    requires Ordered(ps, start) && i < |ps|
    ensures start <= ps[i].at && ps[i].End() - start <= |Render(ps, start, fill)|
    ensures Render(ps, start, fill)[ps[i].at - start..ps[i].End() - start] == ps[i].bytes
  {
    PieceInside(ps, start, i);
    RenderLength(ps, start, fill);
    var gap := Repeat(fill, ps[0].at - start);
    var rest := Render(ps[1..], ps[0].End(), fill);
    if i == 0 {
      MiddleSlice(gap, ps[0].bytes, rest);
    } else {
      PieceLands(ps[1..], ps[0].End(), fill, i - 1);
      SliceOfRest(gap + ps[0].bytes, rest, ps[i].at - start, ps[i].End() - start);
    }
  }

  /** Every byte outside the pieces is the fill character. */
  lemma {:induction false} GapsFilled(ps: seq<Piece>, start: nat, fill: byte, k: nat)
    requires Ordered(ps, start) && start <= k < EndOf(ps, start)
    requires forall i :: 0 <= i < |ps| ==> !(ps[i].at <= k < ps[i].End())
    ensures k - start < |Render(ps, start, fill)| && Render(ps, start, fill)[k - start] == fill
  {
    RenderLength(ps, start, fill);
    if k >= ps[0].at {
      assert k >= ps[0].End();
      forall i | 0 <= i < |ps[1..]| ensures !(ps[1..][i].at <= k < ps[1..][i].End()) {
        assert ps[1..][i] == ps[i + 1];
      }
      GapsFilled(ps[1..], ps[0].End(), fill, k);
    }
  }

  lemma {:induction false} AppendPieces(a: seq<Piece>, b: seq<Piece>, start: nat, fill: byte)
    ensures EndOf(a + b, start) == EndOf(b, EndOf(a, start))
    ensures Ordered(a + b, start) <==> Ordered(a, start) && Ordered(b, EndOf(a, start))
    ensures Ordered(a + b, start) ==>
              Render(a + b, start, fill) == Render(a, start, fill) + Render(b, EndOf(a, start), fill)
  {
    if a == [] {
      assert a + b == b;
    } else {
      assert (a + b)[1..] == a[1..] + b;
      AppendPieces(a[1..], b, a[0].End(), fill);
    }
  }

  /** `done` is written; writing `rest` after it completes `whole`. */
  ghost predicate OnTrack(done: seq<byte>, rest: seq<Piece>, fill: byte, whole: seq<byte>) {
    Ordered(rest, |done|) && done + Render(rest, |done|, fill) == whole
  }

  lemma OnTrackStep(done: seq<byte>, p: Piece, tail: seq<Piece>, fill: byte, whole: seq<byte>)
    requires OnTrack(done, [p] + tail, fill, whole)
    ensures |done| <= p.at && p.End() <= |whole|
    ensures OnTrack(done + Repeat(fill, p.at - |done|) + p.bytes, tail, fill, whole)
  {
    var rest := [p] + tail;
    assert rest[1..] == tail;
    var gap := Repeat(fill, p.at - |done|);
    var done' := done + gap + p.bytes;
    assert |done'| == p.End();
    assert done + (gap + p.bytes + Render(tail, p.End(), fill)) == done' + Render(tail, p.End(), fill);
  }

  /** The buffer an image is built in, with a count of the writes to each byte. */
  class Image {
    const bytes: array<byte>
    ghost var writes: seq<nat>
    /** From where on Progress speaks of the counts. */
    ghost const counted: nat

    ghost predicate Valid()
      reads this
    {
      |writes| == bytes.Length
    }

    constructor (size: nat, ghost counted: nat)
      ensures Valid() && bytes.Length == size && fresh(bytes) && writes == Repeat(0, size) && this.counted == counted
    {
      bytes := new byte[size];
      this.counted := counted;
      writes := Repeat(0, size);
    }

    /** memcpy into the buffer. */
    method Memcpy(at: nat, src: seq<byte>)
      requires Valid() && at + |src| <= bytes.Length
      modifies this, bytes
      ensures Valid()
      ensures bytes[..] == old(bytes[..at]) + src + old(bytes[at + |src|..])
      ensures forall i :: 0 <= i < |writes| ==>
                writes[i] == old(writes)[i] + if at <= i < at + |src| then 1 else 0
    {
      for i := 0 to |src|
        invariant writes == old(writes)
        invariant bytes[..] == old(bytes[..at]) + src[..i] + old(bytes[at + i..])
      {
        bytes[at + i] := src[i];
      }
      assert src[..|src|] == src;
      ghost var before := writes;
      writes := seq(|writes|, i requires 0 <= i < |before| => before[i] + if at <= i < at + |src| then 1 else 0);
    }

    /** memset. */
    method Memset(at: nat, c: byte, n: nat)
      requires Valid() && at + n <= bytes.Length
      modifies this, bytes
      ensures Valid()
      ensures bytes[..] == old(bytes[..at]) + Repeat(c, n) + old(bytes[at + n..])
      ensures forall i :: 0 <= i < |writes| ==> writes[i] == old(writes)[i] + if at <= i < at + n then 1 else 0
    {
      Memcpy(at, Repeat(c, n));
    }

    /** The first rc bytes are `img`, each from `counted` on written once, and nothing past them is written
        yet. */
    ghost predicate Progress(img: seq<byte>, rc: nat)
      reads this, bytes
    {
      && Valid() && rc <= bytes.Length
      && bytes[..rc] == img
      && forall i :: 0 <= i < |writes| && (counted <= i || rc <= i) ==> writes[i] == if i < rc then 1 else 0
    }

    /** Fill up to the piece, then copy it: how every part of an image is written. */
    method Put(p: Piece, rc: nat, fill: byte, ghost done: seq<byte>, ghost tail: seq<Piece>, ghost whole: seq<byte>)
      returns (rc': nat, ghost done': seq<byte>)
      requires Progress(done, rc) && OnTrack(done, [p] + tail, fill, whole) && |whole| <= bytes.Length
      modifies this, bytes
      ensures rc' == p.End()
      ensures Progress(done', rc') && OnTrack(done', tail, fill, whole)
    {
      OnTrackStep(done, p, tail, fill, whole);
      if rc < p.at {
        Memset(rc, fill, p.at - rc);
      }
      Memcpy(p.at, p.bytes);
      rc' := p.at + |p.bytes|;
      done' := done + Repeat(fill, p.at - rc) + p.bytes;
    }
  }
}
