/** The simulated memory system of memlib.c: a fixed buffer of bytes and a break
    that only grows.  Addresses are byte offsets from the first byte of the buffer,
    which is assumed to be 8-aligned.  Words are 32 bits, stored little-endian. */
module MemLib {

  type Byte = x: int | 0 <= x < 256

  const WORD_LIMIT: int := 0x1_0000_0000

  type Word = x: int | 0 <= x < WORD_LIMIT

  /** The word made of four bytes, least significant byte first. */
  function FromBytes(b0: Byte, b1: Byte, b2: Byte, b3: Byte): Word {
    b0 + 0x100 * (b1 as int + 0x100 * (b2 as int + 0x100 * b3 as int))
  }

  /** The word whose four bytes start at address p. */
  ghost function WordAt(s: seq<Byte>, p: int): Word
    requires 0 <= p && p + 4 <= |s|
  {
    FromBytes(s[p], s[p + 1], s[p + 2], s[p + 3])
  }

  lemma LowByteUnique(b: Byte, c: Byte, x: int, y: int)
    requires b + 0x100 * x == c + 0x100 * y
    ensures b == c && x == y
  {
  }

  /** p is the address of a word that ends no later than the limit. */
  ghost predicate WordAddress(p: int, limit: int) {
    0 <= p && p + 4 <= limit && p % 4 == 0
  }

  /** The four bytes of a word are determined by the word. */
  lemma WordDeterminesBytes(s: seq<Byte>, t: seq<Byte>, p: int)
    requires 0 <= p && p + 4 <= |s| && p + 4 <= |t|
    requires WordAt(s, p) == WordAt(t, p)
    ensures s[p..p + 4] == t[p..p + 4]
  {
    var s1: int, s2: int, s3: int := s[p + 1], s[p + 2], s[p + 3];
    var t1: int, t2: int, t3: int := t[p + 1], t[p + 2], t[p + 3];
    LowByteUnique(s[p], t[p], s1 + 0x100 * (s2 + 0x100 * s3), t1 + 0x100 * (t2 + 0x100 * t3));
    LowByteUnique(s[p + 1], t[p + 1], s2 + 0x100 * s3, t2 + 0x100 * t3);
    LowByteUnique(s[p + 2], t[p + 2], s3, t3);
  }

  /** Two buffers that agree on every word of an aligned range agree on its bytes. */
  lemma WordsDetermineBytes(s: seq<Byte>, t: seq<Byte>, lo: int, hi: int)
    requires 0 <= lo <= hi <= |s| && |s| == |t|
    requires lo % 4 == 0 && hi % 4 == 0
    requires forall q :: lo <= q < hi && q % 4 == 0 ==> q + 4 <= |s| && WordAt(s, q) == WordAt(t, q)
    ensures s[lo..hi] == t[lo..hi]
  {
    hide WordAt;
    forall k | lo <= k < hi
      ensures s[k] == t[k]
    {
      var q := k - k % 4;
      WordDeterminesBytes(s, t, q);
      assert s[k] == s[q..q + 4][k - q] == t[q..q + 4][k - q];
    }
  }

  ghost predicate WordIs(m: map<int, int>, s: seq<Byte>, p: int) {
    p in m && WordAddress(p, |s|) && m[p] == WordAt(s, p)
  }

  /** m gives, by address, the words of buffer s. */
  ghost predicate Coherent(m: map<int, int>, s: seq<Byte>) {
    && (forall p {:trigger WordAddress(p, |s|)} :: p in m <==> WordAddress(p, |s|))
    && (forall p {:trigger WordIs(m, s, p)} :: p in m ==> WordIs(m, s, p))
  }

  class Memory {
    const maxHeap: nat
    const bytes: array<Byte>
    var brk: nat

    /** The words of the buffer, by address. */
    ghost var words: map<int, int>

    ghost predicate Valid()
      reads this, bytes
    {
      && bytes.Length == maxHeap < WORD_LIMIT
      && brk <= maxHeap
      && Coherent(words, bytes[..])
    }

    /** mem_init: reserve the buffer; the heap is empty. */
    constructor (maxHeap: nat)
      requires maxHeap < WORD_LIMIT
      ensures Valid() && this.maxHeap == maxHeap && brk == 0
      ensures fresh(bytes)
    {
      this.maxHeap := maxHeap;
      bytes := new Byte[maxHeap];
      brk := 0;
      new;
      words := map p | 0 <= p < maxHeap && WordAddress(p, maxHeap) :: WordAt(bytes[..], p);
    }

    /** mem_sbrk: None stands for (void *)-1. */
    method Sbrk(incr: int) returns (ok: bool, oldBrk: int)
      requires Valid()
      modifies this`brk
      ensures Valid()
      ensures ok <==> incr >= 0 && old(brk) + incr <= maxHeap
      ensures ok ==> oldBrk == old(brk) && brk == old(brk) + incr
      ensures !ok ==> oldBrk == -1 && brk == old(brk)
    {
      oldBrk := brk;
      if incr < 0 || brk + incr > maxHeap {
        return false, -1;
      }
      brk := brk + incr;
      return true, oldBrk;
    }

    /** mem_reset_brk: make the heap empty again. */
    method ResetBrk()
      requires Valid()
      modifies this`brk
      ensures Valid() && brk == 0
    {
      brk := 0;
    }

    /** GET: the word at address p, which must lie below the break. */
    method Get(p: int) returns (w: Word)
      requires Valid() && p in words && p + 4 <= brk
      ensures w == words[p]
    {
      assert WordIs(words, bytes[..], p);
      w := FromBytes(bytes[p], bytes[p + 1], bytes[p + 2], bytes[p + 3]);
    }

    /** PUT: store word w at address p, which must lie below the break. */
    method Put(p: int, w: Word)
      requires Valid() && p in words && p + 4 <= brk
      modifies this`words, bytes
      ensures Valid()
      ensures words == old(words)[p := w]
      ensures 0 <= p && p + 4 <= bytes.Length
      ensures bytes[p] == w % 0x100 && bytes[p + 1] == w / 0x100 % 0x100
      ensures bytes[p + 2] == w / 0x1_0000 % 0x100 && bytes[p + 3] == w / 0x100_0000
    {
      assert WordIs(words, bytes[..], p);
      var w1 := w / 0x100;
      var w2 := w1 / 0x100;
      WriteWord(p, w % 0x100, w1 % 0x100, w2 % 0x100, w2 / 0x100);
    }

    /** The four byte stores of PUT. */
    method WriteWord(p: int, b0: Byte, b1: Byte, b2: Byte, b3: Byte)
      requires Valid() && p in words && p + 4 <= brk
      modifies this`words, bytes
      ensures Valid()
      ensures words == old(words)[p := FromBytes(b0, b1, b2, b3)]
      ensures 0 <= p && p + 4 <= bytes.Length
      ensures bytes[p] == b0 && bytes[p + 1] == b1 && bytes[p + 2] == b2 && bytes[p + 3] == b3
    {
      assert WordIs(words, bytes[..], p);
      bytes[p], bytes[p + 1], bytes[p + 2], bytes[p + 3] := b0, b1, b2, b3;
      words := words[p := FromBytes(b0, b1, b2, b3)];
      forall q {:trigger WordIs(words, bytes[..], q)} | q in words
        ensures WordIs(words, bytes[..], q)
      {
        assert old(WordIs(words, bytes[..], q));
        assert q == p || q + 4 <= p || p + 4 <= q;
      }
    }

    /** A byte load from address a. */
    method Load(a: int) returns (v: Byte)
      requires Valid() && 0 <= a < brk
      ensures v == bytes[a]
    {
      v := bytes[a];
    }

    /** A byte store at address a; of the words, only the one that contains a can change. */
    method Store(a: int, v: Byte)
      requires Valid() && 0 <= a < brk
      modifies this`words, bytes
      ensures Valid()
      ensures bytes[a] == v
      ensures forall k :: 0 <= k < maxHeap && k != a ==> bytes[k] == old(bytes[k])
      ensures words.Keys == old(words.Keys)
      ensures forall q :: q in words && !(q <= a < q + 4) ==> words[q] == old(words)[q]
    {
      forall q | q in words
        ensures old(WordIs(words, bytes[..], q))
      {
      }
      bytes[a] := v;
      words := map p | p in words :: WordAt(bytes[..], p);
      forall q | q in words && !(q <= a < q + 4)
        ensures words[q] == old(words)[q]
      {
        assert old(WordIs(words, bytes[..], q));
        assert WordAt(bytes[..], q) == old(WordAt(bytes[..], q));
      }
    }

    /** memcpy(dst, src, n): the two ranges must not overlap. */
    method Memcpy(dst: int, src: int, n: nat)
      requires Valid()
      requires 0 <= dst && dst + n <= brk && 0 <= src && src + n <= brk
      requires dst + n <= src || src + n <= dst
      modifies this`words, bytes
      ensures Valid()
      ensures forall k :: dst <= k < dst + n ==> bytes[k] == old(bytes[src + (k - dst)])
      ensures forall k :: 0 <= k < maxHeap && !(dst <= k < dst + n) ==> bytes[k] == old(bytes[k])
      ensures words.Keys == old(words.Keys)
      ensures forall q :: q in words && (q + 4 <= dst || dst + n <= q) ==> words[q] == old(words)[q]
    {
      var i := 0;
      while i < n
        invariant 0 <= i <= n
        invariant Valid()
        invariant forall k :: dst <= k < dst + i ==> bytes[k] == old(bytes[src + (k - dst)])
        invariant forall k :: 0 <= k < maxHeap && !(dst <= k < dst + i) ==> bytes[k] == old(bytes[k])
        invariant words.Keys == old(words.Keys)
        invariant forall q :: q in words && (q + 4 <= dst || dst + n <= q) ==> words[q] == old(words)[q]
      {
        var v := Load(src + i);
        Store(dst + i, v);
        i := i + 1;
      }
    }
  }
}
