/** How many symbols one chunk may hold (tools/main_gsacak.c:31, 133-144,
    162-165). The source evaluates these formulas in double precision; here
    they are exact integers. */
module Capacity {
  import opened Common

  /** WORD: half the range of an index of `w` bytes, i.e. the largest text
      length a signed int_t of that width can address. */
  function Word(w: nat): (r: nat)
    ensures w >= 1 ==> 2 * r == Pow256(w)
  {
    if w >= 1 then assert Pow256(w) == 2 * (128 * Pow256(w - 1)); Pow256(w) / 2
    else Pow256(w) / 2
  }

  /** Arrays of int_t per symbol: SA, plus LCP when it is computed. */
  function Arrays(computeLcp: bool): nat
  {
    if computeLcp then 2 else 1
  }

  /** Bytes of memory each symbol of a chunk needs: its int_t arrays and the symbol itself. */
  function BytesPerSymbol(w: nat, computeLcp: bool): (k: nat)
    ensures k >= 1
  {
    w * Arrays(computeLcp) + 1
  }

  /** The memory ceiling: the -m value when one was given, I_MAX otherwise. */
  function Ceiling(ram: nat, iMax: nat): nat
  {
    if ram != 0 then ram else iMax
  }

  /** chunk_size: the largest number of symbols whose arrays fit in `ceiling` bytes. */
  function ChunkSize(ceiling: nat, w: nat, computeLcp: bool): (c: nat)
    ensures c * BytesPerSymbol(w, computeLcp) <= ceiling
    ensures ceiling < (c + 1) * BytesPerSymbol(w, computeLcp)
  {
    var k := BytesPerSymbol(w, computeLcp);
    var c := ceiling / k;
    assert ceiling == c * k + ceiling % k;
    c
  }

  /** No larger count fits: chunk_size is the maximum. */
  lemma ChunkSizeIsLargest(ceiling: nat, w: nat, computeLcp: bool, m: nat)
    requires m * BytesPerSymbol(w, computeLcp) <= ceiling
    ensures m <= ChunkSize(ceiling, w, computeLcp)
  {
    var k := BytesPerSymbol(w, computeLcp);
    var c := ChunkSize(ceiling, w, computeLcp);
    if m > c {
      MulMonotone(c + 1, m, k);
    }
  }

  lemma {:induction false} MulMonotone(a: nat, b: nat, k: nat)
    requires a <= b
    ensures a * k <= b * k
  {
    if a < b {
      MulMonotone(a, b - 1, k);
      assert (b - 1) * k + k == b * k;
    }
  }

  /** INT_MAX of a signed int_t of `w` bytes, WORD - 1: the largest value
      the loop counters `int_t i` of the output blocks can hold. */
  function IndexMax(w: nat): (m: int)
    ensures w >= 1 ==> m >= 0 && 2 * (m + 1) == Pow256(w)
  {
    Word(w) - 1
  }

  /** The partition check of lines 136-144 as written: fatal only when
      chunk_size exceeds WORD, so a chunk_size of exactly WORD passes. */
  function PlanChunksAsWritten(ram: nat, iMax: nat, w: nat, computeLcp: bool): (r: Result<nat, ConfigError>)
    ensures r.Ok? <==> ChunkSize(Ceiling(ram, iMax), w, computeLcp) <= Word(w)
    ensures r.Ok? ==> r.value == ChunkSize(Ceiling(ram, iMax), w, computeLcp)
    ensures r.Err? ==> r.error == PartitionTooLarge
  {
    var c := ChunkSize(Ceiling(ram, iMax), w, computeLcp);
    if c > Word(w) then Err(PartitionTooLarge) else Ok(c)
  }

  /** On the 4-byte build without LCP, -m 10240 gives chunk_size = 10240 MB / 5
      = 2^31 = WORD, which the check accepts; a chunk of that length drives
      `for(i=0; i<len; i++)` (line 296) past INT_MAX. */
  lemma AsWrittenAdmitsWordSizedChunk()
    ensures PlanChunksAsWritten(10240 * 1048576, 0x7fff_ffff, 4, false) == Ok(0x8000_0000)
    ensures 0x8000_0000 > IndexMax(4)
  {
    var c := ChunkSize(10240 * 1048576, 4, false);
    assert BytesPerSymbol(4, false) == 5;
    assert c == 0x8000_0000;
    WordOfBuilds();
  }

  /** The partition check with the bound the loops need: fatal when
      chunk_size reaches WORD, so that every chunk length, and with it every
      value of the loop counters, fits in int_t. */
  function PlanChunks(ram: nat, iMax: nat, w: nat, computeLcp: bool): (r: Result<nat, ConfigError>)
    ensures r.Ok? <==> ChunkSize(Ceiling(ram, iMax), w, computeLcp) <= IndexMax(w)
    ensures r.Ok? ==> r.value == ChunkSize(Ceiling(ram, iMax), w, computeLcp)
    ensures r.Err? ==> r.error == PartitionTooLarge
  {
    var c := ChunkSize(Ceiling(ram, iMax), w, computeLcp);
    if c >= Word(w) then Err(PartitionTooLarge) else Ok(c)
  }

  /** The two checks disagree exactly when chunk_size equals WORD. */
  lemma CorrectedCheckDiffersAtWord(ram: nat, iMax: nat, w: nat, computeLcp: bool)
    ensures PlanChunks(ram, iMax, w, computeLcp) != PlanChunksAsWritten(ram, iMax, w, computeLcp)
      <==> ChunkSize(Ceiling(ram, iMax), w, computeLcp) == Word(w)
  {
  }

  /** The input check of lines 162-165: fatal when the collection length exceeds WORD. */
  function CheckInput(n: nat, w: nat): (r: Result<nat, ConfigError>)
    ensures r.Ok? <==> n <= Word(w)
    ensures r.Ok? ==> r.value == n
    ensures r.Err? ==> r.error == InputTooLarge
  {
    if n > Word(w) then Err(InputTooLarge) else Ok(n)
  }

  /** Memory bound: a chunk of at most chunk_size symbols, with its SA (and
      LCP) arrays, fits in the ceiling, and every offset 0..len the loops
      of lines 296 and 354 count through fits in int_t. */
  lemma ChunkFitsCeiling(ram: nat, iMax: nat, w: nat, computeLcp: bool, len: nat)
    requires PlanChunks(ram, iMax, w, computeLcp).Ok?
    requires len <= PlanChunks(ram, iMax, w, computeLcp).value
    ensures len * BytesPerSymbol(w, computeLcp) <= Ceiling(ram, iMax)
    ensures len <= IndexMax(w)
  {
    MulMonotone(len, PlanChunks(ram, iMax, w, computeLcp).value, BytesPerSymbol(w, computeLcp));
  }

  /** WORD for the two builds: 2^31 for 4-byte int_t, 2^63 for 8-byte int_t. */
  lemma WordOfBuilds()
    ensures Word(4) == 0x8000_0000
    ensures Word(8) == 0x8000_0000_0000_0000
  {
    assert Pow256(4) == 0x1_0000_0000;
    assert Pow256(8) == 0x1_0000_0000_0000_0000;
  }
}
