/** The gap-format LCP output of `main` (tools/main_gsacak.c:351-363): with
    -g D, every LCP entry of a chunk except the first is written as D
    little-endian bytes, and the program exits on the first entry that does
    not fit in D bytes. */
module GapLcp {
  import opened Common
  import Options

  /** 2^63: the int_t entries are at most 64 bits wide. */
  const Int64Bound: int := 0x8000_0000_0000_0000

  /** `c = LCP[i]`: an int_t entry converted to uint64_t. */
  function AsUint64(x: int): (c: nat)
    ensures c < U64
    ensures 0 <= x < U64 ==> c == x
    ensures x < 0 && 0 <= x + U64 ==> c == x + U64
  {
    x % U64
  }

  /** `lcp_limit`, (1 << 8D) - 1: the largest value D bytes hold. */
  function GapLimit(d: nat): nat
  {
    Pow256(d) - 1
  }

  /** The test of line 356 passes: the entry is written, not rejected. */
  predicate Fits(x: int, d: nat)
  {
    AsUint64(x) <= GapLimit(d)
  }

  // ---- Fixed-width little-endian groups ----

  /** The D bytes `fwrite(&c, D, 1, f)` takes from a uint64_t on a
      little-endian host: the low D bytes, least significant first. */
  function LowBytes(v: nat, d: nat): (bs: seq<byte>)
    ensures |bs| == d
  {
    if d == 0 then [] else [(v % 256) as byte] + LowBytes(v / 256, d - 1)
  }

  /** The value a little-endian group of bytes stands for. */
  function FromLittleEndian(bs: seq<byte>): (v: nat)
    ensures v < Pow256(|bs|)
  {
    if bs == [] then 0 else bs[0] as nat + 256 * FromLittleEndian(bs[1..])
  }

  /** Division with remainder is unique. */
  lemma DivModUnique(v: int, m: int, q: int, r: int)
    requires m > 0 && 0 <= r < m && v == m * q + r
    ensures v / m == q && v % m == r
  {
    var q', r' := v / m, v % m;
    if q > q' {
      MulGap(m, q, q');
    } else if q < q' {
      MulGap(m, q', q);
    }
  }

  /** Multiples of m that differ are at least m apart. */
  lemma MulGap(m: int, a: int, b: int)
    requires m > 0 && a > b
    ensures m * a >= m * b + m
  {
    assert m * a == m * b + m * (a - b - 1) + m;
    assert m * (a - b - 1) >= 0;
  }

  /** Multiplying out a * (b * q + r). */
  lemma MulExpand(a: int, b: int, q: int, r: int)
    ensures a * (b * q + r) == (a * b) * q + a * r
  {
    assert a * (b * q) == (a * b) * q;
  }

  /** Multiplication by a non-negative factor keeps the order. */
  lemma MulLeq(a: nat, x: int, y: int)
    requires x <= y
    ensures a * x <= a * y
  {
    assert a * y - a * x == a * (y - x);
  }

  /** The remainder modulo a*b splits into the remainder modulo a and the
      next digit in base a. */
  lemma ModSplit(v: nat, a: nat, b: nat)
    requires a > 0 && b > 0
    ensures v % (a * b) == v % a + a * ((v / a) % b)
  {
    var q, r := v / a, v % a;
    var q2, r2 := q / b, q % b;
    assert q == b * q2 + r2;
    MulExpand(a, b, q2, r2);
    assert v == (a * b) * q2 + (a * r2 + r);
    MulLeq(a, r2, b - 1);
    MulExpand(a, b, 1, -1);
    assert a * r2 + r < a * b;
    DivModUnique(v, a * b, q2, a * r2 + r);
  }

  /** Decoding the D written bytes gives the value truncated to D bytes. */
  lemma {:induction false} LowBytesValue(v: nat, d: nat)
    ensures FromLittleEndian(LowBytes(v, d)) == v % Pow256(d)
  {
    if d > 0 {
      var bs := LowBytes(v, d);
      assert bs[1..] == LowBytes(v / 256, d - 1);
      LowBytesValue(v / 256, d - 1);
      ModSplit(v, 256, Pow256(d - 1));
    }
  }

  /** A value below 256^D survives the D-byte encoding unchanged. */
  lemma LowBytesRoundTrip(v: nat, d: nat)
    requires v < Pow256(d)
    ensures FromLittleEndian(LowBytes(v, d)) == v
  {
    LowBytesValue(v, d);
  }

  /** Every group of bytes is the D-byte encoding of its value. */
  lemma {:induction false} FromLittleEndianRoundTrip(bs: seq<byte>)
    ensures LowBytes(FromLittleEndian(bs), |bs|) == bs
  {
    if bs != [] {
      var v := FromLittleEndian(bs);
      var rest := FromLittleEndian(bs[1..]);
      DivModUnique(v, 256, rest, bs[0] as nat);
      FromLittleEndianRoundTrip(bs[1..]);
      assert bs == [bs[0]] + bs[1..];
    }
  }

  // ---- The records the writer emits ----

  /** The entries the writer visits: LCP[1..len); LCP[0] is never read. */
  function Gaps(lcp: seq<int>): (g: seq<int>)
    ensures |g| == if |lcp| == 0 then 0 else |lcp| - 1
    ensures forall k :: 0 <= k < |g| ==> g[k] == lcp[k + 1]
  {
    if |lcp| == 0 then [] else lcp[1..]
  }

  /** Index of the first entry from `i` on that does not fit in D bytes, or
      |vals| when all of them fit. */
  function FirstOverflow(vals: seq<int>, i: nat, d: nat): (f: nat)
    requires i <= |vals|
    ensures i <= f <= |vals|
    ensures forall k :: i <= k < f ==> Fits(vals[k], d)
    ensures f < |vals| ==> !Fits(vals[f], d)
    decreases |vals| - i
  {
    if i == |vals| || !Fits(vals[i], d) then i else FirstOverflow(vals, i + 1, d)
  }

  /** The bytes written for the first `n` entries: D per entry, in order. */
  function Records(vals: seq<int>, n: nat, d: nat): (bs: seq<byte>)
    requires n <= |vals|
    ensures |bs| == n * d
  {
    if n == 0 then [] else Records(vals, n - 1, d) + LowBytes(AsUint64(vals[n - 1]), d)
  }

  /** Splits a byte stream into groups of D bytes and decodes each group. */
  function Decode(bs: seq<byte>, d: nat): seq<nat>
    requires d >= 1
    decreases |bs|
  {
    if |bs| < d then [] else [FromLittleEndian(bs[..d])] + Decode(bs[d..], d)
  }

  /** Decoding distributes over a stream cut at a group boundary. */
  lemma {:induction false} DecodeAppend(a: seq<byte>, b: seq<byte>, d: nat, m: nat)
    requires d >= 1 && |a| == m * d
    ensures Decode(a + b, d) == Decode(a, d) + Decode(b, d)
    decreases m
  {
    if m == 0 {
      assert a + b == b;
    } else {
      assert |a| == (m - 1) * d + d;
      assert (a + b)[..d] == a[..d];
      assert (a + b)[d..] == a[d..] + b;
      DecodeAppend(a[d..], b, d, m - 1);
    }
  }

  /** Decoding the records of the first `n` entries gives each entry
      converted to uint64_t and truncated to D bytes. */
  lemma {:induction false} RecordsDecode(vals: seq<int>, n: nat, d: nat)
    requires n <= |vals| && d >= 1
    ensures |Decode(Records(vals, n, d), d)| == n
    ensures forall k :: 0 <= k < n ==>
      Decode(Records(vals, n, d), d)[k] == AsUint64(vals[k]) % Pow256(d)
  {
    if n > 0 {
      RecordsDecode(vals, n - 1, d);
      RecordsDecodeStep(vals, n, d);
      var dec := Decode(Records(vals, n, d), d);
      var prev := Decode(Records(vals, n - 1, d), d);
      forall k | 0 <= k < n - 1
        ensures dec[k] == AsUint64(vals[k]) % Pow256(d)
      {
        assert dec[k] == prev[k];
      }
    }
  }

  /** Decoding one more record appends one value. */
  lemma RecordsDecodeStep(vals: seq<int>, n: nat, d: nat)
    requires 1 <= n <= |vals| && d >= 1
    ensures Decode(Records(vals, n, d), d) ==
      Decode(Records(vals, n - 1, d), d) + [AsUint64(vals[n - 1]) % Pow256(d)]
  {
    var v := AsUint64(vals[n - 1]);
    var prev := Records(vals, n - 1, d);
    DecodeAppend(prev, LowBytes(v, d), d, n - 1);
    DecodeGroup(v, d);
  }

  /** One record decodes to the value truncated to D bytes. */
  lemma DecodeGroup(v: nat, d: nat)
    requires d >= 1
    ensures Decode(LowBytes(v, d), d) == [v % Pow256(d)]
  {
    var bs := LowBytes(v, d);
    assert bs[..d] == bs && bs[d..] == [];
    LowBytesValue(v, d);
  }

  /** The loop of lines 354-362: writes the D low bytes of LCP[i] for i from
      1 on, and stops with failure (the program exits) at the first entry
      above lcp_limit. `written` is what reached the file. The caller has
      checked 1 <= D <= 7 (lines 110-117, and the block runs only for D != 0). */
  method WriteGapLcp(lcp: seq<int>, d: nat) returns (written: seq<byte>, ok: bool)
    requires 1 <= d <= 7
    ensures ok <==> forall i :: 1 <= i < |lcp| ==> Fits(lcp[i], d)
    ensures written == Records(Gaps(lcp), FirstOverflow(Gaps(lcp), 0, d), d)
    ensures ok ==> |written| == |Gaps(lcp)| * d
  {
    ghost var g := Gaps(lcp);
    var limit := GapLimit(d);
    written := [];
    var i := 1;
    while i < |lcp|
      invariant 1 <= i <= |g| + 1
      invariant forall k :: 0 <= k < i - 1 ==> Fits(g[k], d)
      invariant written == Records(g, i - 1, d)
    {
      var c := AsUint64(lcp[i]);
      if c > limit {
        ok := false;
        assert FirstOverflow(g, 0, d) == i - 1 by {
          FirstOverflowIs(g, d, i - 1);
        }
        return;
      }
      assert g[i - 1] == lcp[i];
      written := written + LowBytes(c, d);
      i := i + 1;
    }
    ok := true;
    FirstOverflowIs(g, d, |g|);
  }

  /** The block of lines 351-363 as `main` reaches it: D has passed the
      checks of lines 110-117 for an int_t of `w` bytes; D == 0 switches the
      block off, and any other accepted D runs the loop of WriteGapLcp. */
  method GapLcpBlock(lcp: seq<int>, d: int, w: nat) returns (written: seq<byte>, ok: bool)
    requires Options.ValidateGapWidth(d, w).Ok?
    ensures d == 0 ==> written == [] && ok
    ensures d != 0 ==> (ok <==> forall i :: 1 <= i < |lcp| ==> Fits(lcp[i], d))
    ensures d != 0 ==> written == Records(Gaps(lcp), FirstOverflow(Gaps(lcp), 0, d), d)
    ensures d != 0 && ok ==> |written| == |Gaps(lcp)| * d
  {
    if d != 0 {
      written, ok := WriteGapLcp(lcp, d);
    } else {
      written, ok := [], true;
    }
  }

  /** FirstOverflow is determined by its two properties. */
  lemma FirstOverflowIs(vals: seq<int>, d: nat, f: nat)
    requires f <= |vals|
    requires forall k :: 0 <= k < f ==> Fits(vals[k], d)
    requires f < |vals| ==> !Fits(vals[f], d)
    ensures FirstOverflow(vals, 0, d) == f
  {
  }

  /** For an int_t entry (at most 64 bits) and 1 <= D <= 7, the check of
      line 356 accepts exactly the values 0 <= x <= 256^D - 1: negative
      entries wrap to huge unsigned values and are always rejected. */
  lemma FitsExactly(x: int, d: nat)
    requires 1 <= d <= 7
    requires -Int64Bound <= x < Int64Bound
    ensures Fits(x, d) <==> 0 <= x <= GapLimit(d)
  {
    Pow256Mono(d, 7);
    assert Pow256(7) == 0x100_0000_0000_0000;
  }

  lemma {:induction false} Pow256Mono(j: nat, k: nat)
    requires j <= k
    ensures Pow256(j) <= Pow256(k)
    decreases k
  {
    if j < k {
      Pow256Mono(j, k - 1);
    }
  }

  /** Round trip: when every written entry fits and the entries are int_t
      values, decoding the gap-LCP stream in groups of D bytes returns
      LCP[1..len) exactly. */
  lemma GapRoundTrip(lcp: seq<int>, d: nat)
    requires 1 <= d <= 7
    requires forall i :: 0 <= i < |lcp| ==> -Int64Bound <= lcp[i] < Int64Bound
    requires forall i :: 1 <= i < |lcp| ==> Fits(lcp[i], d)
    ensures Decode(Records(Gaps(lcp), |Gaps(lcp)|, d), d) == Gaps(lcp)
  {
    var g := Gaps(lcp);
    var dec := Decode(Records(g, |g|, d), d);
    RecordsDecode(g, |g|, d);
    forall k | 0 <= k < |g|
      ensures dec[k] == g[k]
    {
      assert g[k] == lcp[k + 1];
      FitsExactly(g[k], d);
      DivModUnique(g[k], Pow256(d), 0, g[k]);
    }
  }

  /** With D = 1 an LCP of 300 aborts the writer before anything is written
      for it, while 255 is written as the single byte 255. */
  lemma OneByteGaps()
    ensures !Fits(300, 1) && Fits(255, 1)
    ensures LowBytes(AsUint64(255), 1) == [255]
    ensures FirstOverflow([255, 300, 7], 0, 1) == 1
  {
  }
}
