/** The BWT output block of `main` (tools/main_gsacak.c:294-324): for one
    chunk, walk SA from index 1, write bwt(SA[i], str) for each position, or
    in run-length mode one packed unit per run of equal symbols, then record
    len-1 in the sizes stream. The function bwt(p, str) is not part of this
    model; it enters as a parameter. */
module BwtOutput {
  import opened Common
  import opened RunLengthCode
  import Options

  /** The BWT column the driver writes: one symbol per SA entry except
      entry 0, which holds the terminator and is skipped. */
  function Column(sa: seq<int>, str: seq<byte>, bwt: (int, seq<byte>) -> byte): (col: seq<byte>)
    ensures |col| == if |sa| == 0 then 0 else |sa| - 1
    ensures forall k :: 0 <= k < |col| ==> col[k] == bwt(sa[k + 1], str)
  {
    if |sa| <= 1 then [] else seq(|sa| - 1, k requires 0 <= k < |sa| - 1 => bwt(sa[k + 1], str))
  }

  /** The value written to the sizes stream: len-1 computed in size_t, so
      an empty chunk would record 2^64-1. */
  function SizeRecord(len: nat): (r: nat)
    ensures r < U64
    ensures 1 <= len <= U64 ==> r == len - 1
  {
    (len - 1) % U64
  }

  /** The BWT block of one chunk. `outputBwt` is the -b/-r counter: 0 switches
      the block off, Options.Mode tells plain from run-length output.
      Returns the units written to the BWT stream and the records written to
      the sizes stream. The test of line 301, made on every iteration in the
      source, does not change inside the loop, so it is taken once here. */
  method EmitBwt(sa: seq<int>, str: seq<byte>, bwt: (int, seq<byte>) -> byte, outputBwt: nat)
    returns (units: seq<BwtUnit>, sizes: seq<nat>)
    requires outputBwt != 0 && |sa| > 0 ==> sa[0] == |sa| - 1
    ensures Options.Mode(outputBwt) == Options.NoBwt ==> units == [] && sizes == []
    ensures Options.Mode(outputBwt) != Options.NoBwt ==> Expand(units) == Column(sa, str, bwt)
    ensures Options.Mode(outputBwt) == Options.PlainBwt ==>
      |units| == |Column(sa, str, bwt)| && forall j :: 0 <= j < |units| ==> units[j].Symbol?
    ensures Options.Mode(outputBwt) == Options.RunLengthBwt ==> units == RleEncode(Column(sa, str, bwt))
    ensures Options.Mode(outputBwt) != Options.NoBwt ==> sizes == [SizeRecord(|sa|)]
    ensures Options.Mode(outputBwt) != Options.NoBwt && 1 <= |sa| <= U64 ==> sizes == [|Column(sa, str, bwt)|]
  {
    var mode := Options.Mode(outputBwt);
    if mode == Options.NoBwt {
      units, sizes := [], [];
    } else {
      if mode == Options.RunLengthBwt {
        units := EmitRuns(sa, str, bwt);
        RleEncodeExpands(Column(sa, str, bwt));
      } else {
        units := EmitSymbols(sa, str, bwt);
      }
      sizes := [SizeRecord(|sa|)];
    }
  }

  /** The loop of lines 296-320 in plain mode: one symbol per SA index from 1 on. */
  method EmitSymbols(sa: seq<int>, str: seq<byte>, bwt: (int, seq<byte>) -> byte)
    returns (units: seq<BwtUnit>)
    requires |sa| > 0 ==> sa[0] == |sa| - 1
    ensures Expand(units) == Column(sa, str, bwt)
    ensures |units| == |Column(sa, str, bwt)|
    ensures forall j :: 0 <= j < |units| ==> units[j] == Symbol(Column(sa, str, bwt)[j])
  {
    var len := |sa|;
    ghost var col := Column(sa, str, bwt);
    units := [];
    var i := 0;
    while i < len
      invariant 0 <= i <= len
      invariant |units| == (if i == 0 then 0 else i - 1)
      invariant forall j :: 0 <= j < |units| ==> units[j] == Symbol(col[j])
    {
      if i == 0 {
        assert sa[i] == len - 1;
      } else {
        var c := bwt(sa[i], str);
        assert col[i - 1] == c;
        units := units + [Symbol(c)];
      }
      i := i + 1;
    }
    ExpandSymbols(units, col);
  }

  /** The loop of lines 296-320 in run-length mode: from SA index 1 on, each
      run of equal BWT symbols, cut at 32, becomes one packed unit. */
  method EmitRuns(sa: seq<int>, str: seq<byte>, bwt: (int, seq<byte>) -> byte)
    returns (units: seq<BwtUnit>)
    requires |sa| > 0 ==> sa[0] == |sa| - 1
    ensures units == RleEncode(Column(sa, str, bwt))
  {
    var len := |sa|;
    ghost var col := Column(sa, str, bwt);
    ghost var enc := RleAcc(col, 0, []);
    units := [];
    var i := 0;
    while i < len
      invariant 0 <= i <= len
      invariant i == 0 ==> units == []
      invariant i > 0 ==> RleAcc(col, i - 1, units) == enc
    {
      if i == 0 {
        assert sa[i] == len - 1;
      } else {
        var c := bwt(sa[i], str);
        ghost var start := i - 1;
        var run;
        i, run := ScanRun(sa, str, bwt, i, c);
        RunStep(units, col, start, run, c);
        units := units + [Packed(c, run)];
      }
      i := i + 1;
    }
    RleAccAppends(col, 0, []);
    assert [] + RleFrom(col, 0) == RleEncode(col);
  }

  /** The inner while loop of the run-length branch: starting from SA index
      `i`, whose BWT symbol is `c`, advance over the following positions with
      the same symbol until 32 are counted or SA ends. Returns the index of
      the last symbol of the run and the run length. */
  method ScanRun(sa: seq<int>, str: seq<byte>, bwt: (int, seq<byte>) -> byte, i0: nat, c: byte)
    returns (i: nat, run: nat)
    requires 1 <= i0 < |sa|
    requires bwt(sa[i0], str) == c
    ensures run == i - i0 + 1
    ensures 1 <= run <= MaxRun && i < |sa|
    ensures forall k :: i0 <= k <= i ==> bwt(sa[k], str) == c
    ensures run == MaxRun || i + 1 == |sa| || bwt(sa[i + 1], str) != c
  {
    i, run := i0, 1;
    while i + 1 < |sa| && bwt(sa[i + 1], str) == c && run < MaxRun
      invariant i0 <= i < |sa|
      invariant run == i - i0 + 1 <= MaxRun
      invariant forall k :: i0 <= k <= i ==> bwt(sa[k], str) == c
    {
      run := run + 1;
      i := i + 1;
    }
  }

  /** One iteration of the run-length branch: the packed unit for the run
      starting at column index `start` extends the greedy encoding. */
  lemma RunStep(units: seq<BwtUnit>, col: seq<byte>, start: nat, run: nat, c: byte)
    requires 1 <= run <= MaxRun && start + run <= |col|
    requires forall k :: start <= k < start + run ==> col[k] == c
    requires run == MaxRun || start + run == |col| || col[start + run] != c
    ensures RleAcc(col, start, units) == RleAcc(col, start + run, units + [Packed(c, run)])
  {
    RunFromUnique(col, start + 1, c, MaxRun - 1, run - 1);
  }

  /** A stream of plain symbols expands to the symbols it holds. */
  lemma {:induction false} ExpandSymbols(units: seq<BwtUnit>, col: seq<byte>)
    requires |units| == |col|
    requires forall j :: 0 <= j < |units| ==> units[j] == Symbol(col[j])
    ensures Expand(units) == col
  {
    if units != [] {
      ExpandSymbols(units[1..], col[1..]);
      assert col == [col[0]] + col[1..];
    }
  }
}
