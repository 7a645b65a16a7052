/** The Internet checksum of ip.h: an unrolled sum of 16-bit words and its folding. */
module InetChecksum {
  import opened Common

  const INT_MAX := 0x7fff_ffff

  // ---- words in host order ----

  /** The 16-bit word stored in two bytes, on a big- or little-endian host. */
  function Word(a: byte, b: byte, big: bool): (w: nat)
    ensures w <= 0xffff
  {
    if big then 256 * a + b else a + 256 * b
  }

  function Byte0(w: nat, big: bool): byte
    requires w <= 0xffff
  {
    if big then w / 256 else w % 256
  }

  function Byte1(w: nat, big: bool): byte
    requires w <= 0xffff
  {
    if big then w % 256 else w / 256
  }

  /** htons: a no-op on a big-endian host, a byte swap on a little-endian one. */
  function Htons(w: nat, big: bool): nat
    requires w <= 0xffff
  {
    if big then w else Swap(w)
  }

  function Swap(w: nat): (r: nat)
    requires w <= 0xffff
    ensures r <= 0xffff
  {
    w % 256 * 256 + w / 256
  }

  // ---- the plain sum of section 1 of RFC 1071 ----

  /** The sum of all words, an odd last byte padded with zero. */
  function Sum(b: seq<byte>, big: bool): nat {
    if b == [] then 0
    else if |b| == 1 then Word(b[0], 0, big)
    else Word(b[0], b[1], big) + Sum(b[2..], big)
  }

  /** The sum of the first n words. */
  function Words(b: seq<byte>, n: nat, big: bool): nat
    requires 2 * n <= |b|
  {
    if n == 0 then 0 else Words(b, n - 1, big) + Word(b[2 * n - 2], b[2 * n - 1], big)
  }

  lemma {:induction false} WordsShift(b: seq<byte>, n: nat, big: bool)
    requires 0 < n && 2 * n <= |b|
    ensures Words(b, n, big) == Word(b[0], b[1], big) + Words(b[2..], n - 1, big)
  {
    if n > 1 {
      WordsShift(b, n - 1, big);
    }
  }

  lemma {:induction false} SumIsWords(b: seq<byte>, big: bool)
    ensures Sum(b, big) == Words(b, |b| / 2, big) + if |b| % 2 == 1 then Word(b[|b| - 1], 0, big) else 0
  {
    if |b| >= 2 {
      SumIsWords(b[2..], big);
      WordsShift(b, |b| / 2, big);
    }
  }

  lemma {:induction false} WordsBound(b: seq<byte>, n: nat, big: bool)
    requires 2 * n <= |b|
    ensures Words(b, n, big) <= 0xffff * n
  {
    if n > 0 {
      WordsBound(b, n - 1, big);
    }
  }

  /** The largest sum a buffer of this length can have. */
  function MaxSum(len: nat, big: bool): nat {
    0xffff * (len / 2) + if len % 2 == 0 then 0 else if big then 0xff00 else 0xff
  }

  lemma SumBound(b: seq<byte>, big: bool)
    ensures Sum(b, big) <= MaxSum(|b|, big)
  {
    SumIsWords(b, big);
    WordsBound(b, |b| / 2, big);
  }

  lemma {:induction false} SumOfOnes(n: nat, big: bool)
    ensures Sum(Repeat<byte>(255, n), big) == MaxSum(n, big)
  {
    if n >= 2 {
      assert Repeat<byte>(255, n)[2..] == Repeat<byte>(255, n - 2);
      SumOfOnes(n - 2, big);
    }
  }

  /** Every buffer of a given length sums without overflowing a 32-bit int exactly up to 65536 bytes,
      or 65537 where the padded last byte counts at most 255. */
  lemma NoOverflowExactly(len: nat, big: bool)
    ensures (forall b: seq<byte> :: |b| == len ==> Sum(b, big) <= INT_MAX) <==> len <= if big then 65536 else 65537
  {
    if len <= if big then 65536 else 65537 {
      forall b: seq<byte> | |b| == len ensures Sum(b, big) <= INT_MAX {
        SumBound(b, big);
      }
    } else {
      SumOfOnes(len, big);
      assert Sum(Repeat<byte>(255, len), big) > INT_MAX;
    }
  }

  // ---- ip_cksum_add ----

  /** One pass through the case labels from `enter` down to 1: each adds one word. */
  method Pass(b: seq<byte>, enter: nat, sp0: nat, cksum0: nat, big: bool, ghost init: nat) returns (sp: nat, cksum: nat)
    requires 2 * (sp0 + enter) <= |b| && init + Words(b, sp0 + enter, big) <= INT_MAX
    requires cksum0 == init + Words(b, sp0, big)
    ensures sp == sp0 + enter && cksum == init + Words(b, sp, big)
  {
    sp, cksum := sp0, cksum0;
    var at: nat := enter;
    while at > 0
      invariant at <= enter && sp == sp0 + (enter - at)
      invariant cksum == init + Words(b, sp, big)
    {
      cksum := cksum + Word(b[2 * sp], b[2 * sp + 1], big);
      sp := sp + 1;
      WordsGrow(b, sp, sp0 + enter, big);
      assert cksum <= INT_MAX;
      at := at - 1;
    }
  }

  lemma {:induction false} WordsGrow(b: seq<byte>, m: nat, n: nat, big: bool)
    requires m <= n && 2 * n <= |b|
    ensures Words(b, m, big) <= Words(b, n, big)
    decreases n - m
  {
    if m < n {
      WordsGrow(b, m + 1, n, big);
    }
  }

  /** How many words the loop reads for a buffer of sn words: a buffer without any makes one full pass. */
  function WordsRead(sn: nat): nat {
    if sn == 0 then 16 else sn
  }

  function BytesRead(len: nat): nat {
    2 * WordsRead(len / 2) + len % 2
  }

  /** What the loop adds up over the memory from the buffer's start on. */
  function Total(mem: seq<byte>, len: nat, big: bool): nat
    requires BytesRead(len) <= |mem|
  {
    Words(mem, WordsRead(len / 2), big) + if len % 2 == 1 then Word(mem[BytesRead(len) - 1], 0, big) else 0
  }

  /** The unrolled loop over a buffer of len bytes at the start of mem.  The switch jumps into the first pass
      at label sn % 16, label 0 standing before label 15; n counts the passes. */
  method CksumAdd(mem: seq<byte>, len: nat, init: nat, big: bool) returns (cksum: nat, read: nat)
    requires BytesRead(len) <= |mem| && init + Total(mem, len, big) <= INT_MAX
    ensures cksum == init + Total(mem, len, big)
    ensures read == BytesRead(len)
  {
    var sn := len / 2;
    var n: int := (sn + 15) / 16;
    var enter := if sn % 16 == 0 then 16 else sn % 16;
    ghost var all := WordsRead(sn);
    PassesCover(sn);
    WordsGrow(mem, enter, all, big);
    var sp: nat := 0;
    cksum := init;
    sp, cksum := Pass(mem, enter, sp, cksum, big, init);
    n := n - 1;
    while n > 0
      invariant sp + 16 * (if n > 0 then n else 0) == all
      invariant cksum == init + Words(mem, sp, big)
    {
      WordsGrow(mem, sp + 16, all, big);
      sp, cksum := Pass(mem, 16, sp, cksum, big, init);
      n := n - 1;
    }
    read := 2 * sp;
    if len % 2 == 1 {
      cksum := cksum + OddByte(mem[2 * sp], big);
      read := read + 1;
    }
  }

  /** The odd last byte, shifted up and put in network order. */
  function OddByte(last: byte, big: bool): (w: nat)
    ensures w == Word(last, 0, big)
  {
    Htons(256 * (last as nat), big)
  }

  lemma PassesCover(sn: nat)
    ensures var n := (sn + 15) / 16 - 1;
            FirstPass(sn) + 16 * (if n > 0 then n else 0) == WordsRead(sn) && FirstPass(sn) <= WordsRead(sn)
  {
  }

  /** How many words the first pass reads, by the number of words in the buffer. */
  function FirstPass(sn: nat): nat {
    if sn % 16 == 0 then 16 else sn % 16
  }

  lemma {:induction false} WordsOfPrefix(mem: seq<byte>, len: nat, n: nat, big: bool)
    requires 2 * n <= len <= |mem|
    ensures Words(mem, n, big) == Words(mem[..len], n, big)
  {
    if n > 0 {
      WordsOfPrefix(mem, len, n - 1, big);
    }
  }

  /** A buffer of at least one word is summed, whatever lies behind it. */
  lemma TotalIsSum(mem: seq<byte>, len: nat, big: bool)
    requires 2 <= len <= |mem|
    ensures BytesRead(len) == len && Total(mem, len, big) == Sum(mem[..len], big)
  {
    SumIsWords(mem[..len], big);
    WordsOfPrefix(mem, len, len / 2, big);
  }

  lemma {:induction false} WordsOfOnes(n: nat, m: nat, big: bool)
    requires 2 * n <= m
    ensures Words(Repeat<byte>(255, m), n, big) == 0xffff * n
  {
    if n > 0 {
      WordsOfOnes(n - 1, m, big);
    }
  }

  /** The loop reads only the buffer, and so adds up the buffer's words whatever memory lies behind it, if and
      only if the buffer holds at least one word. */
  lemma ReadsInsideExactly(len: nat, big: bool)
    ensures BytesRead(len) <= len <==> len >= 2
    ensures (forall mem: seq<byte> ::
               |mem| >= Max(len, BytesRead(len)) ==> Total(mem, len, big) == Sum(mem[..len], big))
            <==> len >= 2
  {
    if len >= 2 {
      forall mem: seq<byte> | |mem| >= Max(len, BytesRead(len)) ensures Total(mem, len, big) == Sum(mem[..len], big) {
        TotalIsSum(mem, len, big);
      }
    } else {
      var mem := Repeat<byte>(255, BytesRead(len));
      WordsOfOnes(16, BytesRead(len), big);
      SumBound(mem[..len], big);
      assert Total(mem, len, big) != Sum(mem[..len], big);
    }
  }

  // ---- ip_cksum_carry ----

  /** The one's complement sum in 16 bits of a number of up to 31 bits. */
  function Fold(x: nat): (r: nat)
    requires x <= INT_MAX
    ensures r <= 0xffff
  {
    var y := x / 0x10000 + x % 0x10000;
    (y + y / 0x10000) % 0x10000
  }

  function Carry(x: nat): (r: nat)
    requires x <= INT_MAX
    ensures r <= 0xffff
  {
    0xffff - Fold(x)
  }

  /** a and b differ by q times 65535. */
  ghost predicate Cong(a: int, b: int, q: int) {
    a == b + 0xffff * q
  }

  /** Folding gives the representative modulo 65535 that is zero only for zero. */
  lemma FoldMod(x: nat) returns (q: int)
    requires x <= INT_MAX
    ensures Cong(x, Fold(x), q) && (Fold(x) == 0 <==> x == 0)
  {
    var hi, lo := x / 0x10000, x % 0x10000;
    var y := hi + lo;
    assert x == 0x10000 * hi + lo;
    q := if y < 0x10000 then hi else hi + 1;
  }

  lemma FoldUnique(x: nat, r: nat, q: int)
    requires x <= INT_MAX && r <= 0xffff && Cong(x, r, q) && (r == 0 <==> x == 0)
    ensures Fold(x) == r
  {
    var k := FoldMod(x);
    OneRepresentative(x, Fold(x), k, r, q);
  }

  lemma OneRepresentative(x: nat, r: nat, q: int, r': nat, q': int)
    requires Cong(x, r, q) && Cong(x, r', q') && r <= 0xffff && r' <= 0xffff && (r == 0 <==> r' == 0)
    ensures r == r'
  {
    var d := q' - q;
    assert r - r' == 0xffff * d;
  }

  // ---- verifying a stored checksum ----

  /** The buffer with word k replaced. */
  function Store(b: seq<byte>, k: nat, w: nat, big: bool): seq<byte>
    requires 2 * k + 1 < |b| && w <= 0xffff
  {
    b[2 * k := Byte0(w, big)][2 * k + 1 := Byte1(w, big)]
  }

  lemma {:induction false} SumStore(b: seq<byte>, k: nat, w: nat, big: bool)
    requires 2 * k + 1 < |b| && w <= 0xffff
    ensures Sum(Store(b, k, w, big), big) + Word(b[2 * k], b[2 * k + 1], big) == Sum(b, big) + w
  {
    var c := Store(b, k, w, big);
    if k == 0 {
      assert c[2..] == b[2..];
    } else {
      assert c[2..] == Store(b[2..], k - 1, w, big);
      SumStore(b[2..], k - 1, w, big);
    }
  }

  /** Storing the checksum computed with its field zeroed makes the recomputed checksum zero. */
  lemma StoredChecksumVerifies(b: seq<byte>, k: nat, big: bool)
    requires 2 * k + 1 < |b| <= 65536 && b[2 * k] == 0 && b[2 * k + 1] == 0
    ensures Sum(b, big) <= INT_MAX
    ensures var c := Store(b, k, Carry(Sum(b, big)), big);
            Sum(c, big) <= INT_MAX && Carry(Sum(c, big)) == 0
  {
    SumBound(b, big);
    var s := Sum(b, big);
    var c := Store(b, k, Carry(s), big);
    SumBound(c, big);
    SumStore(b, k, Carry(s), big);
    var q := FoldMod(s);
    FoldUnique(Sum(c, big), 0xffff, q);
  }

  lemma SumStep(x: byte, y: byte, rest: seq<byte>, big: bool)
    ensures Sum([x, y] + rest, big) == Word(x, y, big) + Sum(rest, big)
  {
    assert ([x, y] + rest)[2..] == rest;
  }

  lemma SumFour(a: byte, b: byte, c: byte, d: byte, e: byte, f: byte, g: byte, h: byte, big: bool)
    ensures Sum([a, b, c, d, e, f, g, h], big) == Word(a, b, big) + Word(c, d, big) + Word(e, f, big) + Word(g, h, big)
  {
    SumStep(g, h, [], big);
    SumStep(e, f, [g, h] + [], big);
    SumStep(c, d, [e, f] + ([g, h] + []), big);
    SumStep(a, b, [c, d] + ([e, f] + ([g, h] + [])), big);
    assert [a, b] + ([c, d] + ([e, f] + ([g, h] + []))) == [a, b, c, d, e, f, g, h];
  }

  /** The numerical example of section 3 of RFC 1071, in normal and in swapped order. */
  lemma RfcExample()
    ensures var b: seq<byte> := [0x00, 0x01, 0xf2, 0x03, 0xf4, 0xf5, 0xf6, 0xf7];
            && Sum(b, true) == 0x2ddf0 && Fold(Sum(b, true)) == 0xddf2 && Carry(Sum(b, true)) == 0x220d
            && Sum(b, false) == 0x1f2dc && Fold(Sum(b, false)) == 0xf2dd && Carry(Sum(b, false)) == 0x0d22
  {
    SumFour(0x00, 0x01, 0xf2, 0x03, 0xf4, 0xf5, 0xf6, 0xf7, true);
    SumFour(0x00, 0x01, 0xf2, 0x03, 0xf4, 0xf5, 0xf6, 0xf7, false);
  }

  // ---- byte order independence, section 2(B) of RFC 1071 ----

  function SwapAll(b: seq<byte>): seq<byte>
    requires |b| % 2 == 0
  {
    if b == [] then [] else [b[1], b[0]] + SwapAll(b[2..])
  }

  /** Swapping the bytes of a word multiplies it by 256, modulo 65535. */
  lemma SwapMod(w: nat)
    requires w <= 0xffff
    ensures Cong(Swap(w), 256 * w, -(w / 256)) && (Swap(w) == 0 <==> w == 0)
  {
    assert w == 256 * (w / 256) + w % 256;
  }

  lemma SwapWord(a: byte, b: byte, big: bool)
    ensures Word(b, a, big) == Swap(Word(a, b, big))
  {
    var w := Word(a, b, big);
    if big {
      assert w / 256 == a && w % 256 == b;
    } else {
      assert w / 256 == b && w % 256 == a;
    }
  }

  lemma SwapAllStep(b: seq<byte>, big: bool)
    requires |b| % 2 == 0 && b != []
    ensures SwapAll(b)[..2] == [b[1], b[0]] && SwapAll(b)[2..] == SwapAll(b[2..])
    ensures Sum(SwapAll(b), big) == Word(b[1], b[0], big) + Sum(SwapAll(b[2..]), big)
  {
    assert SwapAll(b)[2..] == SwapAll(b[2..]);
  }

  lemma CongAdd(t: int, s: int, q: int, t': int, s': int, q': int)
    requires Cong(t, 256 * s, q) && Cong(t', 256 * s', q')
    ensures Cong(t + t', 256 * (s + s'), q + q')
  {
  }

  lemma SwapWordMod(x: byte, y: byte, big: bool) returns (q: int)
    ensures Cong(Word(y, x, big), 256 * Word(x, y, big), q) && (Word(y, x, big) == 0 <==> Word(x, y, big) == 0)
  {
    var w := Word(x, y, big);
    SwapWord(x, y, big);
    SwapMod(w);
    var carried: int := w / 256;
    q := -carried;
  }

  lemma {:induction false} SwapAllLength(b: seq<byte>)
    requires |b| % 2 == 0
    ensures |SwapAll(b)| == |b|
  {
    if b != [] {
      SwapAllLength(b[2..]);
    }
  }

  /** Swapping the bytes of every word multiplies the sum by 256, modulo 65535. */
  lemma {:induction false} SwapAllMod(b: seq<byte>, big: bool) returns (q: int)
    requires |b| % 2 == 0
    ensures |SwapAll(b)| == |b| && Cong(Sum(SwapAll(b), big), 256 * Sum(b, big), q)
    ensures Sum(SwapAll(b), big) == 0 <==> Sum(b, big) == 0
  {
    SwapAllLength(b);
    if b == [] {
      q := 0;
    } else {
      var rest := SwapAllMod(b[2..], big);
      var word := SwapWordMod(b[0], b[1], big);
      q := SwapJoin(b, big, word, rest);
    }
  }

  lemma SwapJoin(b: seq<byte>, big: bool, word: int, rest: int) returns (q: int)
    requires |b| % 2 == 0 && b != []
    requires var (x, y) := (b[0], b[1]);
             Cong(Word(y, x, big), 256 * Word(x, y, big), word) && (Word(y, x, big) == 0 <==> Word(x, y, big) == 0)
    requires Cong(Sum(SwapAll(b[2..]), big), 256 * Sum(b[2..], big), rest)
    requires Sum(SwapAll(b[2..]), big) == 0 <==> Sum(b[2..], big) == 0
    ensures Cong(Sum(SwapAll(b), big), 256 * Sum(b, big), q)
    ensures Sum(SwapAll(b), big) == 0 <==> Sum(b, big) == 0
  {
    SwapAllStep(b, big);
    assert Sum(b, big) == Word(b[0], b[1], big) + Sum(b[2..], big);
    CongAdd(Word(b[1], b[0], big), Word(b[0], b[1], big), word, Sum(SwapAll(b[2..]), big), Sum(b[2..], big), rest);
    q := word + rest;
  }

  /** The checksum of the byte-swapped buffer is the byte-swapped checksum. */
  lemma SwappedChecksum(b: seq<byte>, big: bool)
    requires |b| % 2 == 0 && |b| <= 65536
    ensures |SwapAll(b)| == |b| && Sum(b, big) <= INT_MAX && Sum(SwapAll(b), big) <= INT_MAX
    ensures Carry(Sum(SwapAll(b), big)) == Swap(Carry(Sum(b, big)))
  {
    var q := SwapAllMod(b, big);
    SumBound(b, big);
    SumBound(SwapAll(b), big);
    SwappedCarry(Sum(b, big), Sum(SwapAll(b), big), q);
  }

  lemma SwappedCarry(s: nat, t: nat, q: int)
    requires s <= INT_MAX && t <= INT_MAX && Cong(t, 256 * s, q) && (t == 0 <==> s == 0)
    ensures Carry(t) == Swap(Carry(s))
  {
    var k := FoldMod(s);
    SwapMod(Fold(s));
    var r := CongChain(s, t, q, Fold(s), k, Swap(Fold(s)), -(Fold(s) / 256));
    FoldUnique(t, Swap(Fold(s)), r);
    SwapComplement(Fold(s));
  }

  lemma CongChain(s: int, t: int, q: int, f: int, k: int, g: int, h: int) returns (r: int)
    requires Cong(t, 256 * s, q) && Cong(s, f, k) && Cong(g, 256 * f, h)
    ensures Cong(t, g, r)
  {
    r := q + 256 * k - h;
  }

  lemma SwapComplement(f: nat)
    requires f <= 0xffff
    ensures Swap(0xffff - f) == 0xffff - Swap(f)
  {
    var a, b := f / 256, f % 256;
    assert 0xffff - f == 256 * (255 - a) + (255 - b);
    assert (0xffff - f) / 256 == 255 - a && (0xffff - f) % 256 == 255 - b;
  }
}
