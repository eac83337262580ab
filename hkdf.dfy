/**
 * HKDF, the HMAC-based Extract-and-Expand Key Derivation Function of RFC 5869,
 * as implemented by package hkdf (hkdf/hkdf.go): Extract (section 2.2 of
 * RFC 5869), Expand (section 2.3) as a streaming reader, and New, which is
 * Expand applied to the result of Extract.
 *
 * The hash and its HMAC are not modelled: a `Hash` value carries the digest
 * size and HMAC as a function of key and message.
 */
module Hkdf {

  /** A Go `byte`. Wrap-around is written out where the code relies on it. */
  newtype byte = x: int | 0 <= x < 256

  datatype Option<T> = None | Some(value: T)

  /** The one error Read reports ("hkdf: entropy limit reached"). */
  datatype ReadError = EntropyLimitReached

  /**
   * The hash capability passed to Extract, Expand and New: `size` is the
   * digest size (`hash().Size()`), `mac(key, msg)` is HMAC-Hash keyed with
   * `key` over `msg`.
   */
  datatype Hash = Hash(size: nat, mac: (seq<byte>, seq<byte>) -> seq<byte>)

  /** What the code relies on: every HMAC digest is `size` bytes long, and `size` is positive. */
  ghost predicate HashOk(h: Hash) {
    h.size > 0 && forall key, msg :: |h.mac(key, msg)| == h.size
  }

  // ---------------------------------------------------------------------------
  // Extract
  // ---------------------------------------------------------------------------

  /** `make([]byte, n)`: n zero bytes. */
  function Zeros(n: nat): (z: seq<byte>)
    ensures |z| == n
    ensures forall i :: 0 <= i < n ==> z[i] == 0
  {
    seq(n, _ => 0)
  }

  /**
   * PRK = HMAC-Hash(salt, secret). An absent salt (nil) is replaced by
   * `size` zero bytes; a present salt, even an empty one, is used as given.
   */
  function Extract(h: Hash, secret: seq<byte>, salt: Option<seq<byte>>): (prk: seq<byte>)
    requires HashOk(h)
    ensures |prk| == h.size
    ensures salt.Some? ==> prk == h.mac(salt.value, secret)
    ensures salt.None? ==> prk == h.mac(Zeros(h.size), secret)
  {
    var key := if salt.None? then Zeros(h.size) else salt.value;
    h.mac(key, secret)
  }

  /** Leaving the salt out is the same as passing `size` zero bytes. */
  lemma AbsentSaltIsZeroSalt(h: Hash, secret: seq<byte>)
    requires HashOk(h)
    ensures Extract(h, secret, None) == Extract(h, secret, Some(Zeros(h.size)))
  {
  }

  // ---------------------------------------------------------------------------
  // The output of Expand, defined as in section 2.3 of RFC 5869
  // ---------------------------------------------------------------------------

  /** T(0) is empty and T(i) = HMAC-Hash(PRK, T(i-1) | info | i) for 1 <= i <= 255. */
  function Block(h: Hash, prk: seq<byte>, info: seq<byte>, i: nat): (t: seq<byte>)
    requires HashOk(h) && i <= 255
    ensures |t| == if i == 0 then 0 else h.size
    decreases i
  {
    if i == 0 then [] else h.mac(prk, Block(h, prk, info, i - 1) + info + [i as byte])
  }

  /** T(1) | T(2) | ... | T(k): the first k blocks of output keying material. */
  function Okm(h: Hash, prk: seq<byte>, info: seq<byte>, k: nat): seq<byte>
    requires HashOk(h) && k <= 255
    decreases k
  {
    if k == 0 then [] else Okm(h, prk, info, k - 1) + Block(h, prk, info, k)
  }

  /** k blocks are k * size bytes. */
  lemma {:induction false} OkmLength(h: Hash, prk: seq<byte>, info: seq<byte>, k: nat)
    requires HashOk(h) && k <= 255
    ensures |Okm(h, prk, info, k)| == k * h.size
    decreases k
  {
    if k > 0 {
      OkmLength(h, prk, info, k - 1);
      MulDistributes(k - 1, 1, h.size);
    }
  }

  /** The whole stream a reader can ever deliver: all 255 blocks. */
  function Stream(h: Hash, prk: seq<byte>, info: seq<byte>): (s: seq<byte>)
    requires HashOk(h)
    ensures |s| == 255 * h.size
  {
    OkmLength(h, prk, info, 255);
    Okm(h, prk, info, 255)
  }

  lemma MulMonotone(a: nat, b: nat, c: nat)
    requires a <= b
    ensures a * c <= b * c
  {
  }

  /** Fewer blocks are a prefix of more blocks. */
  lemma {:induction false} OkmPrefix(h: Hash, prk: seq<byte>, info: seq<byte>, j: nat, k: nat)
    requires HashOk(h) && j <= k <= 255
    ensures Okm(h, prk, info, j) <= Okm(h, prk, info, k)
    decreases k - j
  {
    if j < k {
      OkmPrefix(h, prk, info, j, k - 1);
      assert Okm(h, prk, info, k) == Okm(h, prk, info, k - 1) + Block(h, prk, info, k);
    }
  }

  /** Every k-block prefix is a prefix of the whole stream. */
  lemma OkmIsStreamPrefix(h: Hash, prk: seq<byte>, info: seq<byte>, k: nat)
    requires HashOk(h) && k <= 255
    ensures Okm(h, prk, info, k) <= Stream(h, prk, info)
  {
    OkmPrefix(h, prk, info, k, 255);
  }

  // ---------------------------------------------------------------------------
  // Counter arithmetic
  // ---------------------------------------------------------------------------

  /**
   * The number of blocks a reader has generated, read off its counter byte:
   * the counter starts at 1 and becomes 0 when it wraps after block 255.
   */
  function Generated(c: byte): (g: nat)
    ensures g <= 255
  {
    if c == 0 then 255 else c as int - 1
  }

  /**
   * `int(255-counter+1)`: the blocks still available. The sum is computed in
   * byte arithmetic, so it wraps from 256 to 0 when the counter is 0.
   */
  function BlocksLeft(c: byte): (b: nat)
    ensures b + Generated(c) == 255
    ensures b == 0 <==> c == 0
  {
    (255 - c as int + 1) % 256
  }

  /** `counter++` on a byte: 255 wraps to 0. */
  function Increment(c: byte): (d: byte)
    ensures c != 0 ==> Generated(d) == Generated(c) + 1
  {
    ((c as int + 1) % 256) as byte
  }

  predicate IsSuffix(s: seq<byte>, t: seq<byte>) {
    |s| <= |t| && s == t[|t| - |s|..]
  }

  // ---------------------------------------------------------------------------
  // The reader's invariants, on values
  // ---------------------------------------------------------------------------

  /**
   * Between Reads: `prev` is the last block generated, what has been handed
   * out followed by `buf` is every block generated so far, and `buf` is a
   * shorter-than-a-block tail of `prev`.
   */
  ghost predicate StateOk(h: Hash, prk: seq<byte>, info: seq<byte>, c: byte,
                          prev: seq<byte>, buf: seq<byte>, output: seq<byte>)
  {
    && HashOk(h)
    && prev == Block(h, prk, info, Generated(c))
    && output + buf == Okm(h, prk, info, Generated(c))
    && |buf| < h.size
    && IsSuffix(buf, prev)
  }

  /**
   * On each pass of Read's loop: `out` was handed out before this Read,
   * `done` has been copied into the caller's slice, and `buf[n..]` is unread.
   */
  ghost predicate LoopOk(h: Hash, prk: seq<byte>, info: seq<byte>, out: seq<byte>, done: seq<byte>,
                         c: byte, prev: seq<byte>, buf: seq<byte>, n: nat)
  {
    && HashOk(h)
    && prev == Block(h, prk, info, Generated(c))
    && n <= |buf| && |buf| - n < h.size
    && IsSuffix(buf, prev)
    && out + done + buf[n..] == Okm(h, prk, info, Generated(c))
  }

  /** Draining n bytes of `buf` starts the loop. */
  lemma LoopStarts(h: Hash, prk: seq<byte>, info: seq<byte>, out: seq<byte>, done: seq<byte>,
                   c: byte, prev: seq<byte>, buf: seq<byte>, n: nat)
    requires StateOk(h, prk, info, c, prev, buf, out)
    requires n <= |buf| && done == buf[..n]
    ensures LoopOk(h, prk, info, out, done, c, prev, buf, n)
  {
    assert buf[..n] + buf[n..] == buf;
  }

  lemma MulDistributes(a: nat, b: nat, c: nat)
    ensures (a + b) * c == a * c + b * c
  {
  }

  lemma MulStrict(a: nat, b: nat, c: nat)
    requires a * c < b * c
    ensures a < b
  {
    if b <= a {
      MulMonotone(b, a, c);
    }
  }

  /**
   * When the loop needs another block, one is left: the counter is not 0,
   * so its byte is in 1..255.
   */
  lemma NextBlockInRange(h: Hash, prk: seq<byte>, info: seq<byte>, out: seq<byte>, done: seq<byte>,
                         c: byte, prev: seq<byte>, buf: seq<byte>, n: nat, want: nat)
    requires LoopOk(h, prk, info, out, done, c, prev, buf, n) && n == |buf|
    requires 0 < want && |out| + |done| + want <= 255 * h.size
    ensures c != 0
  {
    OkmLength(h, prk, info, Generated(c));
    MulStrict(Generated(c), 255, h.size);
  }

  /** Generating block i + 1 and copying its first m bytes keeps the loop going. */
  lemma NextBlockOk(h: Hash, prk: seq<byte>, info: seq<byte>, out: seq<byte>, done: seq<byte>,
                    c: byte, prev: seq<byte>, m: nat, copied: seq<byte>)
    requires HashOk(h) && c != 0 && prev == Block(h, prk, info, Generated(c))
    requires out + done == Okm(h, prk, info, Generated(c))
    requires 0 < m <= h.size
    requires copied == done + h.mac(prk, prev + info + [c])[..m]
    ensures LoopOk(h, prk, info, out, copied, Increment(c), h.mac(prk, prev + info + [c]),
                   h.mac(prk, prev + info + [c]), m)
  {
    var g, block := Generated(c), h.mac(prk, prev + info + [c]);
    assert Generated(Increment(c)) == g + 1;
    assert block == Block(h, prk, info, g + 1);
    assert out + copied + block[m..] == Okm(h, prk, info, g + 1) by {
      assert block[..m] + block[m..] == block;
    }
  }

  /** Keeping the unread tail ends the loop in a state fit for the next Read. */
  lemma LoopEnds(h: Hash, prk: seq<byte>, info: seq<byte>, out: seq<byte>, done: seq<byte>,
                 c: byte, prev: seq<byte>, buf: seq<byte>, n: nat)
    requires LoopOk(h, prk, info, out, done, c, prev, buf, n)
    ensures StateOk(h, prk, info, c, prev, buf[n..], out + done)
  {
  }

  // ---------------------------------------------------------------------------
  // Go's copy(dst[at:], src)
  // ---------------------------------------------------------------------------

  function Min(a: int, b: int): int {
    if a <= b then a else b
  }

  /** Copies as many bytes of `src` as fit into `dst[at..]` and returns how many. */
  method Copy(dst: array<byte>, at: nat, src: seq<byte>) returns (n: nat)
    requires at <= dst.Length
    modifies dst
    ensures n == Min(dst.Length - at, |src|)
    ensures dst[..at + n] == old(dst[..at]) + src[..n]
    ensures dst[at + n..] == old(dst[at + n..])
  {
    n := Min(dst.Length - at, |src|);
    forall i | at <= i < at + n {
      dst[i] := src[i - at];
    }
    assert dst[..at + n] == old(dst[..at]) + src[..n];
  }

  // ---------------------------------------------------------------------------
  // The reader returned by Expand and New
  // ---------------------------------------------------------------------------

  class Reader {
    const hash: Hash
    const size: nat
    const prk: seq<byte>
    const info: seq<byte>
    var counter: byte
    /** The most recent block T(i). */
    var prev: seq<byte>
    /** The unread tail of `prev`. */
    var buf: seq<byte>
    /** Every byte handed out by successful Reads so far, in order. */
    ghost var output: seq<byte>

    ghost predicate Valid()
      reads this
    {
      size == hash.size && StateOk(hash, prk, info, counter, prev, buf, output)
    }

    /** Expand: a reader keyed with `prk` that has generated no block yet. */
    constructor Expand(h: Hash, prk: seq<byte>, info: seq<byte>)
      requires HashOk(h)
      ensures Valid()
      ensures hash == h && size == h.size && this.prk == prk && this.info == info
      ensures counter == 1 && prev == [] && buf == [] && output == []
    {
      hash, size := h, h.size;
      this.prk, this.info := prk, info;
      counter, prev, buf := 1, [], [];
      output := [];
    }

    /**
     * Read fills all of `p` with the next bytes of the stream, or fails,
     * changing nothing, when fewer bytes than `p.Length` can still be derived.
     */
    method Read(p: array<byte>) returns (written: nat, err: Option<ReadError>)
      requires Valid()
      modifies this, p
      ensures Valid()
      ensures err.None? <==> p.Length <= old(|buf| + BlocksLeft(counter) * size)
      ensures err.None? <==> |old(output)| + p.Length <= 255 * size
      ensures err.Some? ==> err == Some(EntropyLimitReached) && written == 0 && unchanged(this) && unchanged(p)
      ensures err.None? ==> written == p.Length && output == old(output) + p[..]
      ensures err.None? ==> old(output) + p[..] <= Stream(hash, prk, info)
      ensures err.None? && p.Length <= old(|buf|) ==>
                counter == old(counter) && prev == old(prev) && buf == old(buf)[p.Length..]
    {
      Capacity();
      var need := p.Length;
      var remains := |buf| + BlocksLeft(counter) * size;
      if remains < need {
        return 0, Some(EntropyLimitReached);
      }
      Fill(p);
      OutputIsStreamPrefix();
      return need, None;
    }

    /**
     * The part of Read after the limit check: drain `buf` into `p`, then
     * generate blocks until `p` is full, and keep what is left of the last one.
     */
    method Fill(p: array<byte>)
      requires Valid() && |output| + p.Length <= 255 * size
      modifies this, p
      ensures Valid()
      ensures output == old(output) + p[..]
      ensures p.Length <= old(|buf|) ==>
                counter == old(counter) && prev == old(prev) && buf == old(buf)[p.Length..]
    {
      ghost var out0 := output;
      ghost var generated := false;
      var n := Copy(p, 0, buf);
      var off := n;
      ghost var done := buf[..n];
      LoopStarts(hash, prk, info, out0, done, counter, prev, buf, n);
      while off < p.Length
        invariant 0 <= off <= p.Length && output == out0
        invariant p[..off] == done
        invariant LoopOk(hash, prk, info, out0, done, counter, prev, buf, n)
        invariant off < p.Length ==> n == |buf|
        invariant |out0| + p.Length <= 255 * size
        invariant p.Length <= old(|buf|) ==> !generated
        invariant !generated ==> counter == old(counter) && prev == old(prev) && buf == old(buf)
        decreases p.Length - off
      {
        n := Step(p, off, out0, done);
        done := done + buf[..n];
        off := off + n;
        generated := true;
      }
      assert p[..] == done;
      LoopEnds(hash, prk, info, out0, done, counter, prev, buf, n);
      buf := buf[n..];
      output := output + p[..];
    }

    /**
     * One pass of Read's loop: HMAC over the previous block, the info and the
     * counter byte, which is in 1..255; increment the counter; then copy as
     * much of the new block as fits into `p[off..]`.
     */
    method Step(p: array<byte>, off: nat, ghost out: seq<byte>, ghost done: seq<byte>) returns (n: nat)
      requires size == hash.size && LoopOk(hash, prk, info, out, done, counter, prev, buf, |buf|)
      requires off < p.Length && |out| + |done| + (p.Length - off) <= 255 * size
      modifies this, p
      ensures buf == prev && |buf| == size && 0 < n == Min(p.Length - off, size)
      ensures LoopOk(hash, prk, info, out, done + buf[..n], counter, prev, buf, n)
      ensures p[..off + n] == old(p[..off]) + buf[..n]
      ensures output == old(output)
    {
      ghost var c, last := counter, prev;
      NextBlockInRange(hash, prk, info, out, done, counter, prev, buf, |buf|, p.Length - off);
      prev := hash.mac(prk, prev + info + [counter]);
      counter := Increment(counter);
      buf := prev;
      n := Copy(p, off, buf);
      NextBlockOk(hash, prk, info, out, done, c, last, n, done + buf[..n]);
    }

    /** The bytes a reader can still derive are the 255 blocks less what it has handed out. */
    lemma Capacity()
      requires Valid()
      ensures |buf| + BlocksLeft(counter) * size == 255 * size - |output|
    {
      var g := Generated(counter);
      OkmLength(hash, prk, info, g);
      MulDistributes(BlocksLeft(counter), g, size);
    }

    /** Once all 255 blocks have been handed out, the counter has wrapped to 0 and nothing is buffered. */
    lemma Exhausted()
      requires Valid() && |output| == 255 * size
      ensures counter == 0 && buf == []
    {
      OkmLength(hash, prk, info, Generated(counter));
      MulStrict(254, Generated(counter), size);
    }

    /** Whatever a reader has handed out is a prefix of the stream. */
    lemma OutputIsStreamPrefix()
      requires Valid()
      ensures output <= Stream(hash, prk, info)
    {
      OkmIsStreamPrefix(hash, prk, info, Generated(counter));
    }
  }

  /** New: Expand applied to the pseudorandom key that Extract derives. */
  method New(h: Hash, secret: seq<byte>, salt: Option<seq<byte>>, info: seq<byte>) returns (r: Reader)
    requires HashOk(h)
    ensures fresh(r) && r.Valid()
    ensures r.hash == h && r.size == h.size && r.prk == Extract(h, secret, salt) && r.info == info
    ensures r.counter == 1 && r.prev == [] && r.buf == [] && r.output == []
  {
    var prk := Extract(h, secret, salt);
    r := new Reader.Expand(h, prk, info);
  }
}

/**
 * Section 2.3 of RFC 5869 as a one-shot function, and what callers of the
 * reader can rely on: reads from a fresh reader are that function's output,
 * however the output is split into reads, up to the limit of 255 blocks.
 */
module HkdfClient {
  import opened Hkdf

  /** N = ceil(L / size), the number of blocks RFC 5869 generates for L bytes. */
  function BlocksFor(L: nat, size: nat): nat
    requires 0 < size
    decreases L
  {
    if L == 0 then 0 else 1 + BlocksFor(if L <= size then 0 else L - size, size)
  }

  /** ceil(L / size) blocks cover L bytes with less than one block to spare, and no more than 255 are needed. */
  lemma {:induction false} BlocksForBounds(L: nat, size: nat)
    requires 0 < size && L <= 255 * size
    ensures BlocksFor(L, size) <= 255
    ensures L <= BlocksFor(L, size) * size < L + size
    decreases L
  {
    if L > size {
      BlocksForBounds(L - size, size);
      MulDistributes(BlocksFor(L - size, size), 1, size);
    }
  }

  /** OKM = the first L octets of T(1) | ... | T(N); defined for L <= 255 * size. */
  function OneShot(h: Hash, prk: seq<byte>, info: seq<byte>, L: nat): (okm: seq<byte>)
    requires HashOk(h) && L <= 255 * h.size
    ensures |okm| == L
  {
    BlocksForBounds(L, h.size);
    OkmLength(h, prk, info, BlocksFor(L, h.size));
    Okm(h, prk, info, BlocksFor(L, h.size))[..L]
  }

  /** The one-shot output is the first L bytes of the stream. */
  lemma OneShotIsStreamPrefix(h: Hash, prk: seq<byte>, info: seq<byte>, L: nat)
    requires HashOk(h) && L <= 255 * h.size
    ensures OneShot(h, prk, info, L) <= Stream(h, prk, info)
  {
    BlocksForBounds(L, h.size);
    var k := BlocksFor(L, h.size);
    OkmIsStreamPrefix(h, prk, info, k);
    OkmLength(h, prk, info, k);
    assert Okm(h, prk, info, k)[..L] <= Okm(h, prk, info, k);
  }

  /** Two sequences of the same length that are both prefixes of s are equal. */
  lemma PrefixesAgree(a: seq<byte>, b: seq<byte>, s: seq<byte>)
    requires a <= s && b <= s && |a| == |b|
    ensures a == b
  {
    assert a == s[..|a|] && b == s[..|b|];
  }

  /** One read of L bytes from a fresh reader: succeeds exactly up to 255 blocks, and gives the one-shot output. */
  method ReadOnce(h: Hash, prk: seq<byte>, info: seq<byte>, L: nat) returns (okm: seq<byte>, err: Option<ReadError>)
    requires HashOk(h)
    ensures err.None? <==> L <= 255 * h.size
    ensures err.Some? ==> err == Some(EntropyLimitReached)
    ensures err.None? ==> okm == OneShot(h, prk, info, L)
  {
    var r := new Reader.Expand(h, prk, info);
    var p := new byte[L];
    var _, e := r.Read(p);
    okm, err := p[..], e;
    if e.None? {
      OneShotIsStreamPrefix(h, prk, info, L);
      PrefixesAgree(okm, OneShot(h, prk, info, L), Stream(h, prk, info));
    }
  }

  /** Reads n bytes from r into a new buffer and returns them. */
  method ReadFrom(r: Reader, n: nat) returns (bytes: seq<byte>, err: Option<ReadError>)
    requires r.Valid()
    modifies r
    ensures r.Valid()
    ensures err.None? <==> |old(r.output)| + n <= 255 * r.size
    ensures err.Some? ==> err == Some(EntropyLimitReached) && r.output == old(r.output)
    ensures err.None? ==> |bytes| == n && r.output == old(r.output) + bytes
  {
    var p := new byte[n];
    var _, e := r.Read(p);
    bytes, err := p[..], e;
  }

  /** Two successive reads from one fresh reader. */
  method ReadTwice(h: Hash, prk: seq<byte>, info: seq<byte>, a: nat, b: nat)
    returns (first: seq<byte>, second: seq<byte>, err1: Option<ReadError>, err2: Option<ReadError>)
    requires HashOk(h)
    ensures err1.None? <==> a <= 255 * h.size
    ensures err1.None? ==> (err2.None? <==> a + b <= 255 * h.size)
    ensures err1.Some? ==> err2 == err1
    ensures err1.None? && err2.None? ==> |first| == a && |second| == b && first + second <= Stream(h, prk, info)
  {
    var r := new Reader.Expand(h, prk, info);
    first, err1 := ReadFrom(r, a);
    if err1.None? {
      assert r.output == first;
      second, err2 := ReadFrom(r, b);
      if err2.None? {
        assert r.output == first + second;
        r.OutputIsStreamPrefix();
      }
    } else {
      second, err2 := [], err1;
    }
  }

  /**
   * Reading a bytes and then b bytes from a fresh reader gives the same bytes
   * as reading a + b bytes from another fresh reader with the same inputs.
   */
  method SplitRead(h: Hash, prk: seq<byte>, info: seq<byte>, a: nat, b: nat)
    returns (first: seq<byte>, second: seq<byte>, whole: seq<byte>)
    requires HashOk(h) && a + b <= 255 * h.size
    ensures |first| == a && |second| == b
    ensures first + second == whole
  {
    var e1, e2, e3;
    first, second, e1, e2 := ReadTwice(h, prk, info, a, b);
    whole, e3 := ReadOnce(h, prk, info, a + b);
    OneShotIsStreamPrefix(h, prk, info, a + b);
    PrefixesAgree(first + second, whole, Stream(h, prk, info));
  }

  /** A zero-length read succeeds at any point and leaves the reader as it was. */
  method EmptyRead(r: Reader) returns (written: nat, err: Option<ReadError>)
    requires r.Valid()
    modifies r
    ensures r.Valid() && written == 0 && err == None
    ensures r.counter == old(r.counter) && r.prev == old(r.prev) && r.buf == old(r.buf)
    ensures r.output == old(r.output)
  {
    var p := new byte[0];
    r.Capacity();
    written, err := r.Read(p);
    assert p[..] == [];
  }

  /** A fresh reader delivers exactly 255 * size bytes in one read, and refuses one byte more. */
  method Limit(h: Hash, prk: seq<byte>, info: seq<byte>) returns (full: Option<ReadError>, over: Option<ReadError>)
    requires HashOk(h)
    ensures full == None && over == Some(EntropyLimitReached)
  {
    var _, e1 := ReadOnce(h, prk, info, 255 * h.size);
    var _, e2 := ReadOnce(h, prk, info, 255 * h.size + 1);
    full, over := e1, e2;
  }

  /**
   * After all 255 blocks have been read, the counter has wrapped to 0,
   * a zero-length read still succeeds and a one-byte read fails.
   */
  method Exhaust(h: Hash, prk: seq<byte>, info: seq<byte>)
    returns (counter: byte, empty: Option<ReadError>, extra: Option<ReadError>)
    requires HashOk(h)
    ensures counter == 0 && empty == None && extra == Some(EntropyLimitReached)
  {
    var r := new Reader.Expand(h, prk, info);
    var all, none, one := new byte[255 * h.size], new byte[0], new byte[1];
    var _, e := r.Read(all);
    r.Exhausted();
    counter := r.counter;
    var _, e' := r.Read(none);
    var _, e'' := r.Read(one);
    empty, extra := e', e'';
  }
}
