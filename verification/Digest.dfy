/** The streaming digest context (benches/ringx/mod.rs): buffering and padding around a block
    compression function. However a message is cut into updates, the digest is that of the whole
    message, padded as in section 5.1 of FIPS 180-4. */
module Digests {
  import opened Outcome
  import opened Powers
  import opened Sequences
  import opened Hashing

  const MAX_BLOCK_LEN: nat := 128
  const U64: nat := 0x1_0000_0000_0000_0000

  datatype Algorithm<!S> = Algorithm(blockLen: nat, lenLen: nat, initial: S,
                                     compress: (S, Bytes) -> S, format: S -> Bytes)
  {
    /** What the algorithms of the source have in common: 64 and 8 bytes, or 128 and 16. */
    predicate Valid() {
      8 <= lenLen < blockLen <= MAX_BLOCK_LEN
    }

    /** The compression of all whole blocks of the data. */
    ghost function Fold(s: S, data: Bytes): S
      requires blockLen > 0
      decreases |data|
    {
      if |data| < blockLen then s else Fold(compress(s, data[..blockLen]), data[blockLen..])
    }

    /** `block_data_order` on the first `num` blocks behind a pointer. */
    function BlockDataOrder(s: S, data: Bytes, num: nat): S
      requires blockLen > 0 && num <= Quot(|data|, blockLen)
      decreases num
    {
      if num == 0 then s
      else
        FirstBlock(|data|, blockLen, num);
        BlockDataOrder(compress(s, data[..blockLen]), data[blockLen..], num - 1)
    }
  }

  /** The algorithms of the source: blocks of 64 bytes with a length field of 8, or of 128 with one of 16. */
  lemma SourceAlgorithms<S>(a: Algorithm<S>)
    requires (a.blockLen == 64 && a.lenLen == 8) || (a.blockLen == 128 && a.lenLen == 16)
    ensures a.Valid()
  {}

  lemma FirstBlock(len: nat, n: nat, num: nat)
    requires n > 0 && 0 < num <= Quot(len, n)
    ensures n <= len && num - 1 <= Quot(len - n, n)
  {}

  // ---------- the padded message ----------

  function Zeros(n: nat): (z: Bytes)
    ensures |z| == n && forall k: nat | k < n :: z[k] == 0
  {
    seq(n, _ => 0)
  }

  /** The last w bytes of a number, most significant first. */
  function BigEndian(v: nat, w: nat): (r: Bytes)
    ensures |r| == w
  {
    if w == 0 then [] else BigEndian(v / 256, w - 1) + [(v % 256) as byte]
  }

  /** The number that bytes stand for, most significant first. */
  ghost function Number(s: Bytes): nat {
    if s == [] then 0 else Number(s[..|s| - 1]) * 256 + s[|s| - 1] as nat
  }

  lemma {:induction false} BigEndianReads(v: nat, w: nat)
    requires v < Pow(256, w)
    ensures Number(BigEndian(v, w)) == v
  {
    if w > 0 {
      BigEndianReads(v / 256, w - 1);
      NumberNext(BigEndian(v / 256, w - 1), (v % 256) as byte);
    }
  }

  lemma NumberNext(s: Bytes, x: byte)
    ensures Number(s + [x]) == Number(s) * 256 + x as nat
  {
    assert (s + [x])[..|s + [x]| - 1] == s;
  }

  /** The number of zero bytes between the end mark and the length. */
  ghost function PadZeros(len: nat, n: nat, lenLen: nat): nat
    requires lenLen < n
  {
    var r := Rem(len, n);
    if r + 1 + lenLen <= n then n - (r + 1 + lenLen) else 2 * n - (r + 1 + lenLen)
  }

  /** The message, an end mark, the fewest zeros that fill whole blocks, and the length in bits. */
  ghost function Padded(m: Bytes, n: nat, lenLen: nat): Bytes
    requires lenLen < n
  {
    m + ([0x80] + Zeros(PadZeros(|m|, n, lenLen)) + BigEndian(8 * |m|, lenLen))
  }

  /** So many zeros fill whole blocks. */
  ghost predicate Fills(len: nat, zeros: nat, n: nat, lenLen: nat)
    requires n > 0
  {
    (len + 1 + zeros + lenLen) % n == 0
  }

  /** The padding of section 5.1 of FIPS 180-4 fills whole blocks with the fewest zeros. */
  lemma PadZerosLeast(len: nat, n: nat, lenLen: nat)
    requires lenLen < n
    ensures Fills(len, PadZeros(len, n, lenLen), n, lenLen)
    ensures forall z: nat | Fills(len, z, n, lenLen) :: PadZeros(len, n, lenLen) <= z
  {
    hide Quot, Rem;
    var z, r := PadZeros(len, n, lenLen), Rem(len, n);
    var full := Quot(len, n) + if r + 1 + lenLen <= n then 1 else 2;
    PadSpan(len, n, lenLen, full);
    MulDiv(full, n);
    forall y: nat | Fills(len, y, n, lenLen)
      ensures z <= y
    {
      NoFewer(len + 1 + y + lenLen, n, full);
    }
  }

  /** A multiple of n above (full - 1) * n is at least full * n. */
  lemma NoFewer(x: nat, n: nat, full: nat)
    requires n > 0 && x % n == 0 && full > 0 && x > (full - 1) * n
    ensures x >= full * n
  {
    ExactDiv(x, n);
    if x / n < full { MulMono(x / n, full - 1, n); } else { MulMono(full, x / n, n); }
  }

  lemma PadSpan(len: nat, n: nat, lenLen: nat, full: nat)
    requires lenLen < n && full == Quot(len, n) + if Rem(len, n) + 1 + lenLen <= n then 1 else 2
    ensures len + 1 + PadZeros(len, n, lenLen) + lenLen == full * n && PadZeros(len, n, lenLen) < n
    ensures full > 0 && (full - 1) * n < len + 1 + lenLen
  {
    hide Quot, Rem;
    var q := Quot(len, n);
    QuotRem(len, n);
    assert (q + 1) * n == q * n + n && (q + 2) * n == q * n + 2 * n;
  }

  /** The length field reads back as the number of bits. */
  lemma PaddedLength(m: Bytes, n: nat, lenLen: nat)
    requires 8 <= lenLen < n && 8 * |m| < U64
    ensures var p := Padded(m, n, lenLen); |p| % n == 0 && Number(p[|p| - lenLen..]) == 8 * |m|
  {
    hide Pow, BigEndian, Number, PadZeros;
    PadZerosLeast(|m|, n, lenLen);
    U64Bytes();
    PowMonotone(256, 8, lenLen);
    BigEndianReads(8 * |m|, lenLen);
    var p := Padded(m, n, lenLen);
    assert p[|p| - lenLen..] == BigEndian(8 * |m|, lenLen);
  }

  lemma U64Bytes()
    ensures Pow(256, 8) == U64
  {}

  lemma {:induction false} BigEndianZero(w: nat)
    ensures BigEndian(0, w) == Zeros(w)
  {
    if w > 0 { BigEndianZero(w - 1); }
  }

  /** Leading bytes of a small number are zero. */
  lemma {:induction false} BigEndianSmall(v: nat, k: nat, w: nat)
    requires v < Pow(256, k) && k <= w
    ensures BigEndian(v, w) == Zeros(w - k) + BigEndian(v, k)
    decreases k
  {
    if k == 0 {
      BigEndianZero(w);
    } else {
      BigEndianSmall(v / 256, k - 1, w - 1);
    }
  }

  // ---------- folding in pieces ----------

  /** All but the incomplete last block has been compressed: the rest goes on from there. */
  lemma {:induction false} FoldMore<S>(a: Algorithm<S>, s: S, m: Bytes, data: Bytes)
    requires a.blockLen > 0
    ensures a.Fold(s, m + data) == a.Fold(a.Fold(s, m), m[|m| - Rem(|m|, a.blockLen)..] + data)
    decreases |m|
  {
    hide Rem;
    var n := a.blockLen;
    if |m| < n {
      BelowBlock(a, s, m);
      assert m[|m| - Rem(|m|, n)..] == m;
    } else {
      BlockOff(|m|, n);
      var all, rest := m + data, m[n..];
      assert all[..n] == m[..n] && all[n..] == rest + data;
      assert rest[|rest| - Rem(|rest|, n)..] == m[|m| - Rem(|m|, n)..];
      FoldMore(a, a.compress(s, m[..n]), rest, data);
    }
  }

  lemma {:induction false} BlocksFold<S>(a: Algorithm<S>, s: S, data: Bytes)
    requires a.blockLen > 0
    ensures a.BlockDataOrder(s, data, Quot(|data|, a.blockLen)) == a.Fold(s, data)
    decreases |data|
  {
    if |data| >= a.blockLen { BlocksFold(a, a.compress(s, data[..a.blockLen]), data[a.blockLen..]); }
  }

  lemma {:induction false} QuotRemSum(x: nat, y: nat, n: nat)
    requires n > 0
    ensures Quot(x + y, n) == Quot(x, n) + Quot(Rem(x, n) + y, n) && Rem(x + y, n) == Rem(Rem(x, n) + y, n)
    decreases x
  {
    if x >= n { QuotRemSum(x - n, y, n); }
  }

  lemma OneBlock<S>(a: Algorithm<S>, s: S, block: Bytes)
    requires a.blockLen > 0 && |block| == a.blockLen
    ensures 1 <= Quot(|block|, a.blockLen)
    ensures a.Fold(s, block) == a.compress(s, block) && a.BlockDataOrder(s, block, 1) == a.compress(s, block)
  {
    assert block[..a.blockLen] == block;
    assert a.BlockDataOrder(a.compress(s, block), block[a.blockLen..], 0) == a.compress(s, block);
  }

  lemma FoldBlock<S>(a: Algorithm<S>, s: S, block: Bytes)
    requires a.blockLen > 0 && |block| == a.blockLen
    ensures a.Fold(s, block) == a.compress(s, block)
  {
    OneBlock(a, s, block);
  }

  lemma BlockFirst<S>(a: Algorithm<S>, s: S, block: Bytes, rest: Bytes)
    requires a.blockLen > 0 && |block| == a.blockLen
    ensures a.Fold(s, block + rest) == a.Fold(a.compress(s, block), rest)
  {}

  // ---------- the arithmetic of the context ----------

  function WholeBlocks(len: nat, n: nat): nat
    requires n > 0
  {
    len / n
  }

  function Saved(len: nat, n: nat): nat
    requires n > 0
  {
    len % n
  }

  lemma BlocksAndRest(len: nat, n: nat)
    requires n > 0
    ensures WholeBlocks(len, n) == Quot(len, n) && Saved(len, n) == Rem(len, n)
  {
    QuotRem(len, n);
  }

  /** The length in bits, with the checked operations of `finish`. */
  function DataBits(blocks: nat, n: nat, pending: nat): Option<nat> {
    var bytes := blocks * n;
    if bytes >= U64 || bytes + pending >= U64 || (bytes + pending) * 8 >= U64 then None else Some((bytes + pending) * 8)
  }

  lemma DataBitsOf(len: nat, n: nat)
    requires n > 0
    ensures DataBits(Quot(len, n), n, Rem(len, n)) == if 8 * len < U64 then Some(8 * len) else None
  {
    QuotRem(len, n);
  }

  // ---------- the context ----------

  class Context<!S> {
    const algorithm: Algorithm<S>
    var state: S
    var completedDataBlocks: nat
    const pending: array<byte>
    var numPending: nat
    ghost var message: Bytes

    ghost predicate Shape()
      reads this
    {
      algorithm.Valid() && pending.Length == MAX_BLOCK_LEN
    }

    /** The message so far: its whole blocks in the state, the rest in the buffer. */
    ghost predicate Valid()
      reads this, pending
    {
      && Shape()
      && completedDataBlocks == Quot(|message|, algorithm.blockLen) < U64
      && numPending == Rem(|message|, algorithm.blockLen)
      && state == algorithm.Fold(algorithm.initial, message)
      && pending[..numPending] == message[|message| - numPending..]
    }

    constructor (algorithm: Algorithm<S>)
      requires algorithm.Valid()
      ensures Valid() && message == [] && this.algorithm == algorithm && fresh(pending)
    {
      this.algorithm := algorithm;
      state := algorithm.initial;
      completedDataBlocks := 0;
      pending := new byte[MAX_BLOCK_LEN](_ => 0);
      numPending := 0;
      message := [];
    }

    /** Overwrites part of the buffer. */
    method Fill(at: nat, data: Bytes)
      requires at + |data| <= pending.Length
      modifies pending
      ensures pending[..at + |data|] == old(pending[..at]) + data
      ensures pending[at + |data|..] == old(pending[at + |data|..])
    {
      forall k: int | 0 <= k < |data| {
        pending[at + k] := data[k];
      }
      assert forall k: int | 0 <= k < |data| :: pending[at..at + |data|][k] == data[k];
      assert pending[..at + |data|] == pending[..at] + pending[at..at + |data|];
    }

    /** The data fits into the buffer. */
    method Buffer(data: Bytes)
      requires Valid() && numPending + |data| < algorithm.blockLen
      modifies this, pending
      ensures Valid() && message == old(message) + data
    {
      hide Quot, Rem, Algorithm.Fold;
      ghost var carry, before := pending[..numPending], message;
      FoldMore(algorithm, algorithm.initial, message, data);
      QuotRemSum(|message|, |data|, algorithm.blockLen);
      BelowBlock(algorithm, state, carry + data);
      Fill(numPending, data);
      numPending := numPending + |data|;
      message := message + data;
      assert pending[..numPending] == carry + data == message[|before| - |carry|..];
    }

    /** The data completes the block in the buffer. */
    method TopUp(data: Bytes) returns (ok: bool)
      requires Valid() && numPending + |data| == algorithm.blockLen
      modifies this, pending
      ensures ok <==> Quot(|old(message)| + |data|, algorithm.blockLen) < U64
      ensures ok ==> Valid() && message == old(message) + data && numPending == 0
    {
      hide Quot, Rem, Algorithm.Fold, Algorithm.BlockDataOrder;
      var n := algorithm.blockLen;
      ghost var carry := pending[..numPending];
      FoldMore(algorithm, algorithm.initial, message, data);
      QuotRemSum(|message|, |data|, n);
      BlockOff(n, n);
      Fill(numPending, data);
      assert pending[..n] == carry + data;
      FoldBlock(algorithm, state, pending[..n]);
      CompressPending();
      if completedDataBlocks + 1 >= U64 {
        return false;
      }
      completedDataBlocks := completedDataBlocks + 1;
      numPending := 0;
      message := message + data;
      return true;
    }

    /** The block in the buffer goes into the state. */
    method CompressPending()
      requires Shape()
      modifies this`state
      ensures state == algorithm.compress(old(state), pending[..algorithm.blockLen])
    {
      OneBlock(algorithm, state, pending[..algorithm.blockLen]);
      state := algorithm.BlockDataOrder(state, pending[..algorithm.blockLen], 1);
    }

    /** Whole blocks are compressed straight from the data. */
    method CompressBlocks(remaining: Bytes) returns (ok: bool)
      requires Shape() && completedDataBlocks < U64
      modifies this`state, this`completedDataBlocks
      ensures state == algorithm.Fold(old(state), remaining)
      ensures ok <==> old(completedDataBlocks) + Quot(|remaining|, algorithm.blockLen) < U64
      ensures ok ==> completedDataBlocks == old(completedDataBlocks) + Quot(|remaining|, algorithm.blockLen)
    {
      hide Quot, Rem, Algorithm.Fold, Algorithm.BlockDataOrder, WholeBlocks;
      BlocksAndRest(|remaining|, algorithm.blockLen);
      BlocksFold(algorithm, state, remaining);
      NoBlocks(algorithm, state, remaining);
      var numBlocks := WholeBlocks(|remaining|, algorithm.blockLen);
      if numBlocks > 0 {
        state := algorithm.BlockDataOrder(state, remaining, numBlocks);
        if completedDataBlocks + numBlocks >= U64 {
          return false;
        }
        completedDataBlocks := completedDataBlocks + numBlocks;
      }
      return true;
    }

    /** The end of the data, too short for a block, goes into the empty buffer. */
    method Save(remaining: Bytes)
      requires Shape() && numPending == 0
      modifies this`numPending, pending
      ensures numPending == Rem(|remaining|, algorithm.blockLen)
      ensures pending[..numPending] == remaining[|remaining| - numPending..]
    {
      hide Quot, Rem, Saved;
      BlocksAndRest(|remaining|, algorithm.blockLen);
      var saved := Saved(|remaining|, algorithm.blockLen);
      if saved > 0 {
        Fill(0, remaining[|remaining| - saved..]);
        numPending := saved;
      }
    }

    /** The buffer is empty. */
    method Absorb(remaining: Bytes) returns (ok: bool)
      requires Valid() && numPending == 0
      modifies this, pending
      ensures ok <==> Quot(|old(message)| + |remaining|, algorithm.blockLen) < U64
      ensures ok ==> Valid() && message == old(message) + remaining
    {
      hide Quot, Rem, Algorithm.Fold;
      var n := algorithm.blockLen;
      FoldMore(algorithm, algorithm.initial, message, remaining);
      assert message[|message| - 0..] + remaining == remaining;
      QuotRemSum(|message|, |remaining|, n);
      TailOfSum(message, remaining, Rem(|remaining|, n));
      ok := CompressBlocks(remaining);
      if ok {
        Save(remaining);
        message := message + remaining;
      }
    }

    /** `update`. It panics, answering false, when the block counter overflows. */
    method Update(data: Bytes) returns (ok: bool)
      requires Valid()
      modifies this, pending
      ensures ok <==> Quot(|old(message)| + |data|, algorithm.blockLen) < U64
      ensures ok ==> Valid() && message == old(message) + data
    {
      hide Quot, Rem, Algorithm.Fold, Algorithm.BlockDataOrder;
      QuotGrows(|message|, |data|, algorithm.blockLen, numPending);
      if |data| < algorithm.blockLen - numPending {
        Buffer(data);
        return true;
      }
      var remaining := data;
      if numPending > 0 {
        var toCopy := algorithm.blockLen - numPending;
        ok := TopUp(data[..toCopy]);
        if !ok {
          return;
        }
        remaining := data[toCopy..];
        assert data[..toCopy] + remaining == data;
      }
      ok := Absorb(remaining);
    }

    /** The end mark, and the rest of the block with it if the length does not fit behind. */
    method EndMark(ghost bits: Bytes) returns (paddingPos: nat)
      requires Valid() && |bits| == algorithm.lenLen
      modifies this`state, pending
      ensures paddingPos <= algorithm.blockLen - algorithm.lenLen
      ensures var zeros := PadZeros(|message|, algorithm.blockLen, algorithm.lenLen);
              var rest := Zeros(algorithm.blockLen - algorithm.lenLen - paddingPos) + bits;
              var padding := [0x80] + Zeros(zeros) + bits;
              algorithm.Fold(algorithm.initial, message + padding)
              == algorithm.Fold(state, pending[..paddingPos] + rest)
    {
      hide Quot, Rem, Algorithm.Fold, Algorithm.BlockDataOrder, PadZeros, Zeros;
      var n, lenLen := algorithm.blockLen, algorithm.lenLen;
      ghost var carry := pending[..numPending];
      ghost var padding := [0x80] + Zeros(PadZeros(|message|, n, lenLen)) + bits;
      FoldMore(algorithm, algorithm.initial, message, padding);
      PadFold(algorithm, state, carry, |message|, bits);
      paddingPos := numPending;
      pending[paddingPos] := 0x80;
      paddingPos := paddingPos + 1;
      assert pending[..paddingPos] == carry + [0x80];
      if paddingPos > n - lenLen {
        Fill(paddingPos, Zeros(n - paddingPos));
        CompressPending();
        paddingPos := 0;
        assert pending[..0] + (Zeros(n - lenLen) + bits) == Zeros(n - lenLen) + bits;
      }
    }

    /** `finish`: the digest of the message so far. It panics when the length in bits overflows. */
    method Finish() returns (r: Option<Bytes>)
      requires Valid()
      modifies this, pending
      ensures Shape()
      ensures r.Some? <==> 8 * |old(message)| < U64
      ensures r.Some? ==>
                r.value == algorithm.format(algorithm.Fold(algorithm.initial,
                                                           Padded(old(message), algorithm.blockLen, algorithm.lenLen)))
    {
      hide Quot, Rem, Algorithm.Fold, Algorithm.BlockDataOrder, BigEndian, Pow, PadZeros, DataBits;
      var n, lenLen := algorithm.blockLen, algorithm.lenLen;
      ghost var bits := BigEndian(8 * |message|, lenLen);
      DataBitsOf(|message|, n);
      var paddingPos := EndMark(bits);
      var dataBits := DataBits(completedDataBlocks, n, numPending);
      if dataBits.None? {
        return None;
      }
      LastBlock(paddingPos, dataBits.value);
      FoldBlock(algorithm, state, pending[..n]);
      CompressPending();
      return Some(algorithm.format(state));
    }

    /** Zeros behind the end mark, and the length. */
    method LastBlock(paddingPos: nat, dataBits: nat)
      requires Shape() && paddingPos <= algorithm.blockLen - algorithm.lenLen && dataBits < U64
      modifies pending
      ensures var zeros := Zeros(algorithm.blockLen - algorithm.lenLen - paddingPos);
              pending[..algorithm.blockLen]
              == old(pending[..paddingPos]) + (zeros + BigEndian(dataBits, algorithm.lenLen))
    {
      hide BigEndian, Pow, Zeros;
      var n, lenLen := algorithm.blockLen, algorithm.lenLen;
      ghost var front := pending[..paddingPos];
      Fill(paddingPos, Zeros(n - 8 - paddingPos));
      assert pending[..n - 8] == front + Zeros(n - 8 - paddingPos);
      WriteLength(n, dataBits);
      BigEndianSmall(dataBits, 8, lenLen) by { U64Bytes(); }
      JoinZeros(front, n - lenLen - paddingPos, lenLen - 8, BigEndian(dataBits, 8));
    }

    /** The loop that writes the length backwards into the last eight bytes of the block. */
    method WriteLength(n: nat, dataBits: nat)
      requires 8 <= n <= pending.Length
      modifies pending
      ensures pending[..n] == old(pending[..n - 8]) + BigEndian(dataBits, 8)
      ensures pending[n..] == old(pending[n..])
    {
      var left, k := dataBits, n;
      ghost var was := pending[..];
      while k > n - 8
        invariant n - 8 <= k <= n
        invariant BigEndian(dataBits, 8) == BigEndian(left, k - (n - 8)) + pending[k..n]
        invariant pending[..k] == was[..k] && pending[n..] == was[n..]
      {
        k := k - 1;
        ghost var tail := pending[k + 1..n];
        pending[k] := (left % 256) as byte;
        assert pending[k..n] == [(left % 256) as byte] + tail;
        assert BigEndian(left, k + 1 - (n - 8)) == BigEndian(left / 256, k - (n - 8)) + [(left % 256) as byte];
        left := left / 256;
      }
      assert pending[..n] == pending[..n - 8] + pending[n - 8..n];
    }

    /** `reset`: as good as new, whatever happened before. */
    method Reset()
      requires Shape()
      modifies this, pending
      ensures Valid() && message == []
    {
      state := algorithm.initial;
      Fill(0, Zeros(MAX_BLOCK_LEN));
      completedDataBlocks := 0;
      numPending := 0;
      message := [];
    }
  }

  lemma BelowBlock<S>(a: Algorithm<S>, s: S, data: Bytes)
    requires |data| < a.blockLen
    ensures a.Fold(s, data) == s && Quot(|data|, a.blockLen) == 0 && Rem(|data|, a.blockLen) == |data|
  {}

  lemma QuotGrows(x: nat, y: nat, n: nat, r: nat)
    requires n > 0 && r == Rem(x, n)
    ensures y < n - r ==> Quot(x + y, n) == Quot(x, n)
    ensures y >= n - r ==> Quot(x + (n - r), n) <= Quot(x + y, n)
  {
    QuotRemSum(x, y, n);
    QuotRemSum(x, n - r, n);
  }

  lemma TailOfSum(m: Bytes, data: Bytes, n: nat)
    requires n <= |data|
    ensures (m + data)[|m + data| - n..] == data[|data| - n..]
  {}

  lemma NoBlocks<S>(a: Algorithm<S>, s: S, data: Bytes)
    requires a.blockLen > 0
    ensures a.BlockDataOrder(s, data, 0) == s
  {}

  lemma BlockOff(x: nat, n: nat)
    requires 0 < n <= x
    ensures Quot(x, n) == 1 + Quot(x - n, n) && Rem(x, n) == Rem(x - n, n)
  {}

  /** Zeros that reach into the next block. */
  lemma SplitZeros(carry: Bytes, x: nat, zeros: nat, bits: Bytes)
    requires x <= zeros
    ensures carry + ([0x80] + Zeros(zeros) + bits) == (carry + [0x80] + Zeros(x)) + (Zeros(zeros - x) + bits)
  {}

  lemma PadCases(len: nat, n: nat, lenLen: nat)
    requires lenLen < n
    ensures var used := Rem(len, n) + 1;
            PadZeros(len, n, lenLen) == if used + lenLen <= n then n - lenLen - used else (n - used) + (n - lenLen)
  {}

  lemma Regroup(carry: Bytes, zeros: Bytes, bits: Bytes)
    ensures carry + ([0x80] + zeros + bits) == (carry + [0x80]) + (zeros + bits)
  {}

  /** The padding behind an incomplete block: the end mark and the length go into that block, or the end mark
      into that block and the length into the next. */
  lemma PadFold<S>(a: Algorithm<S>, s: S, carry: Bytes, len: nat, bits: Bytes)
    requires a.Valid() && |carry| == Rem(len, a.blockLen) && |bits| == a.lenLen
    ensures var n, lenLen, used := a.blockLen, a.lenLen, |carry| + 1;
            var padding := [0x80] + Zeros(PadZeros(len, n, lenLen)) + bits;
            a.Fold(s, carry + padding) ==
              if used + lenLen <= n then a.Fold(s, (carry + [0x80]) + (Zeros(n - lenLen - used) + bits))
              else a.Fold(a.compress(s, carry + [0x80] + Zeros(n - used)), Zeros(n - lenLen) + bits)
  {
    hide Rem, Algorithm.Fold, PadZeros, Zeros;
    var n, lenLen, used, zeros := a.blockLen, a.lenLen, |carry| + 1, PadZeros(len, a.blockLen, a.lenLen);
    PadCases(len, n, lenLen);
    if used + lenLen <= n {
      Regroup(carry, Zeros(zeros), bits);
    } else {
      SplitZeros(carry, n - used, zeros, bits);
      BlockFirst(a, s, carry + [0x80] + Zeros(n - used), Zeros(n - lenLen) + bits);
    }
  }

  lemma JoinZeros(front: Bytes, x: nat, y: nat, rest: Bytes)
    ensures front + Zeros(x + y) + rest == front + (Zeros(x) + (Zeros(y) + rest))
  {}

  lemma FlattenNext(m: Bytes, parts: seq<Bytes>, k: nat)
    requires k < |parts|
    ensures m + Flatten(parts[k..]) == (m + parts[k]) + Flatten(parts[k + 1..])
  {}

  lemma FlattenEnds(parts: seq<Bytes>)
    ensures [] + Flatten(parts[0..]) == Flatten(parts) && Flatten(parts[|parts|..]) == []
  {}

  /** A context fed with parts, and finished: the digest of the parts joined, however they were cut. */
  method DigestOfParts<S>(algorithm: Algorithm<S>, parts: seq<Bytes>) returns (r: Option<Bytes>)
    requires algorithm.Valid()
    ensures r.Some? <==> 8 * |Flatten(parts)| < U64
    ensures r.Some? ==>
              r.value == algorithm.format(algorithm.Fold(algorithm.initial,
                                                         Padded(Flatten(parts), algorithm.blockLen, algorithm.lenLen)))
  {
    hide Quot, Rem, Algorithm.Fold, Padded, Flatten;
    FlattenEnds(parts);
    var context := new Context<S>(algorithm);
    for k := 0 to |parts|
      invariant fresh(context) && fresh(context.pending) && context.algorithm == algorithm && context.Valid()
      invariant context.message + Flatten(parts[k..]) == Flatten(parts)
    {
      FlattenNext(context.message, parts, k);
      ghost var before := context.message;
      var ok := context.Update(parts[k]);
      if !ok {
        QuotRem(|before| + |parts[k]|, algorithm.blockLen);
        return None;
      }
    }
    assert context.message + [] == context.message;
    r := context.Finish();
  }
}
