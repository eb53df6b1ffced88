/** The run-length code the driver applies to the BWT column
    (tools/main_gsacak.c:301-316): consecutive equal symbols are grouped
    into runs of at most 32, each emitted as one packed unit. The packing
    `rle(c, run)` itself is not part of this model; a unit is the pair. */
module RunLengthCode {
  import opened Common

  /** The longest run one packed unit may carry. */
  const MaxRun: nat := 32

  /** One unit written to the BWT stream: a plain symbol, or rle(c, run). */
  datatype BwtUnit = Symbol(c: byte) | Packed(c: byte, run: nat)

  function Repeat(c: byte, k: nat): (s: seq<byte>)
    ensures |s| == k && forall j :: 0 <= j < k ==> s[j] == c
  {
    seq(k, _ => c)
  }

  /** The symbols one unit stands for. */
  function Symbols(u: BwtUnit): seq<byte>
  {
    match u
    case Symbol(c) => [c]
    case Packed(c, run) => Repeat(c, run)
  }

  /** The BWT column a stream of units decodes to. */
  function Expand(units: seq<BwtUnit>): seq<byte>
  {
    if units == [] then [] else Symbols(units[0]) + Expand(units[1..])
  }

  /** Sum of the run lengths of the units (a plain symbol counts one). */
  function TotalRun(units: seq<BwtUnit>): nat
  {
    if units == [] then 0
    else (if units[0].Packed? then units[0].run else 1) + TotalRun(units[1..])
  }

  /** Expanding a stream yields as many symbols as its runs add up to. */
  lemma {:induction false} ExpandLength(units: seq<BwtUnit>)
    ensures |Expand(units)| == TotalRun(units)
  {
    if units != [] {
      ExpandLength(units[1..]);
    }
  }

  /** Number of consecutive `c`s in `s` from index `i` on, counting at most
      `cap` of them: what the inner while loop of the emitter counts. */
  function RunFrom(s: seq<byte>, i: nat, c: byte, cap: nat): (r: nat)
    requires i <= |s|
    ensures r <= cap && i + r <= |s|
    decreases |s| - i
  {
    if cap == 0 || i == |s| || s[i] != c then 0 else 1 + RunFrom(s, i + 1, c, cap - 1)
  }

  /** What RunFrom counts: `r` copies of `c`, stopped by the cap, the end of
      `s` or a different symbol. */
  lemma {:induction false} RunFromStops(s: seq<byte>, i: nat, c: byte, cap: nat)
    requires i <= |s|
    ensures forall k :: i <= k < i + RunFrom(s, i, c, cap) ==> s[k] == c
    ensures var r := RunFrom(s, i, c, cap); r == cap || i + r == |s| || s[i + r] != c
    decreases |s| - i
  {
    if cap != 0 && i < |s| && s[i] == c {
      RunFromStops(s, i + 1, c, cap - 1);
    }
  }

  /** The properties above determine the run length. */
  lemma {:induction false} RunFromUnique(s: seq<byte>, i: nat, c: byte, cap: nat, r: nat)
    requires r <= cap && i + r <= |s|
    requires forall k :: i <= k < i + r ==> s[k] == c
    requires r == cap || i + r == |s| || s[i + r] != c
    ensures RunFrom(s, i, c, cap) == r
    decreases r
  {
    if r > 0 {
      RunFromUnique(s, i + 1, c, cap - 1, r - 1);
    }
  }

  /** Length of the packed run that starts at `i`: s[i] and the copies of it
      that follow, 32 at most. */
  function FirstRun(s: seq<byte>, i: nat): (run: nat)
    requires i < |s|
    ensures 1 <= run <= MaxRun && i + run <= |s|
  {
    1 + RunFrom(s, i + 1, s[i], MaxRun - 1)
  }

  /** The run from `i` holds copies of s[i] and ends at the cap, at the end
      of `s` or before a different symbol. */
  lemma FirstRunStops(s: seq<byte>, i: nat)
    requires i < |s|
    ensures forall k :: i <= k < i + FirstRun(s, i) ==> s[k] == s[i]
    ensures FirstRun(s, i) == MaxRun || i + FirstRun(s, i) == |s| || s[i + FirstRun(s, i)] != s[i]
  {
    RunFromStops(s, i + 1, s[i], MaxRun - 1);
  }

  /** Greedy run-length encoding of `s` from index `i` on, runs capped at 32:
      each unit takes as many equal symbols as it may. */
  function RleFrom(s: seq<byte>, i: nat): (units: seq<BwtUnit>)
    requires i <= |s|
    decreases |s| - i
  {
    if i == |s| then []
    else [Packed(s[i], FirstRun(s, i))] + RleFrom(s, i + FirstRun(s, i))
  }

  /** The same encoding accumulated from left to right, unit by unit, as
      the emitter writes it: `acc` holds the units written so far. */
  function RleAcc(s: seq<byte>, i: nat, acc: seq<BwtUnit>): seq<BwtUnit>
    requires i <= |s|
    decreases |s| - i
  {
    if i == |s| then acc
    else RleAcc(s, i + FirstRun(s, i), acc + [Packed(s[i], FirstRun(s, i))])
  }

  /** Accumulating from `i` appends the encoding of the rest of the column. */
  lemma {:induction false} RleAccAppends(s: seq<byte>, i: nat, acc: seq<BwtUnit>)
    requires i <= |s|
    ensures RleAcc(s, i, acc) == acc + RleFrom(s, i)
    decreases |s| - i
  {
    if i < |s| {
      var run := FirstRun(s, i);
      var u := Packed(s[i], run);
      RleAccAppends(s, i + run, acc + [u]);
      assert (acc + [u]) + RleFrom(s, i + run) == acc + ([u] + RleFrom(s, i + run));
    } else {
      assert acc + [] == acc;
    }
  }

  /** The run-length coded BWT column. */
  function RleEncode(s: seq<byte>): seq<BwtUnit>
  {
    RleFrom(s, 0)
  }

  /** A stream of packed runs as the emitter produces them: every run holds
      1 to 32 symbols, and a run stops short of 32 only where the next run's
      symbol differs (or the stream ends). */
  predicate Canonical(units: seq<BwtUnit>)
  {
    units == [] ||
    (units[0].Packed? && 1 <= units[0].run <= MaxRun &&
     (|units| == 1 || units[0].run == MaxRun || units[0].c != units[1].c) &&
     Canonical(units[1..]))
  }

  /** A run of `run` equal symbols from `i` that ends at the cap, at the end
      of the column or at a change of symbol is the first unit of the encoding. */
  lemma RleFromFirstRun(s: seq<byte>, i: nat, run: nat)
    requires 1 <= run <= MaxRun && i + run <= |s|
    requires forall k :: i <= k < i + run ==> s[k] == s[i]
    requires run == MaxRun || i + run == |s| || s[i + run] != s[i]
    ensures RleFrom(s, i) == [Packed(s[i], run)] + RleFrom(s, i + run)
  {
    RunFromUnique(s, i + 1, s[i], MaxRun - 1, run - 1);
    assert FirstRun(s, i) == run;
  }

  /** Expanding a stream with a first unit `u` starts with u's symbols. */
  lemma ExpandCons(u: BwtUnit, rest: seq<BwtUnit>)
    ensures Expand([u] + rest) == Symbols(u) + Expand(rest)
  {
    assert ([u] + rest)[1..] == rest;
  }

  /** A column from `i` on that starts with `run` copies of `c`. */
  lemma SplitRun(s: seq<byte>, i: nat, c: byte, run: nat)
    requires i + run <= |s|
    requires forall k :: i <= k < i + run ==> s[k] == c
    ensures s[i..] == Repeat(c, run) + s[i + run..]
  {
    assert s[i..i + run] == Repeat(c, run);
    assert s[i..] == s[i..i + run] + s[i + run..];
  }

  /** Decoding the encoding gives back the column from `i` on. */
  lemma {:induction false} RleFromExpands(s: seq<byte>, i: nat)
    requires i <= |s|
    ensures Expand(RleFrom(s, i)) == s[i..]
    decreases |s| - i
  {
    if i < |s| {
      var run := FirstRun(s, i);
      var rest := RleFrom(s, i + run);
      ExpandRun(s, i, run, rest);
      RleFromExpands(s, i + run);
    } else {
      assert s[i..] == [];
    }
  }

  /** The first unit of the encoding from `i` expands to the first run. */
  lemma ExpandRun(s: seq<byte>, i: nat, run: nat, rest: seq<BwtUnit>)
    requires i < |s| && run == FirstRun(s, i) && rest == RleFrom(s, i + run)
    ensures Expand(RleFrom(s, i)) == Repeat(s[i], run) + Expand(rest)
    ensures s[i..] == Repeat(s[i], run) + s[i + run..]
  {
    assert RleFrom(s, i) == [Packed(s[i], run)] + rest;
    ExpandCons(Packed(s[i], run), rest);
    FirstRunStops(s, i);
    SplitRun(s, i, s[i], run);
  }

  /** The encoding from `i` is canonical, and its first symbol is s[i]. */
  lemma {:induction false} RleFromCanonical(s: seq<byte>, i: nat)
    requires i <= |s|
    ensures Canonical(RleFrom(s, i))
    ensures i < |s| ==> RleFrom(s, i)[0].c == s[i]
    decreases |s| - i
  {
    if i < |s| {
      var run := FirstRun(s, i);
      var units := RleFrom(s, i);
      var rest := RleFrom(s, i + run);
      assert units == [Packed(s[i], run)] + rest;
      assert units[1..] == rest;
      FirstRunStops(s, i);
      RleFromCanonical(s, i + run);
    }
  }

  /** Round trip: expanding the run-length code reproduces the column. */
  lemma RleEncodeExpands(s: seq<byte>)
    ensures Expand(RleEncode(s)) == s
  {
    RleFromExpands(s, 0);
  }

  /** Every run holds 1 to 32 symbols and only a full run may be followed by
      a run of the same symbol. */
  lemma RleEncodeCanonical(s: seq<byte>)
    ensures Canonical(RleEncode(s))
  {
    RleFromCanonical(s, 0);
  }

  /** The run lengths of the encoding add up to the length of the column. */
  lemma RleEncodeTotal(s: seq<byte>)
    ensures TotalRun(RleEncode(s)) == |s|
  {
    RleEncodeExpands(s);
    ExpandLength(RleEncode(s));
  }

  /** A stream that expands to s[i..] and starts with a packed unit holds
      its run at the front of s[i..], and its tail expands to the rest. */
  lemma PeelUnit(units: seq<BwtUnit>, s: seq<byte>, i: nat)
    requires i <= |s| && units != [] && units[0].Packed?
    requires Expand(units) == s[i..]
    ensures i + units[0].run <= |s|
    ensures forall k :: i <= k < i + units[0].run ==> s[k] == units[0].c
    ensures Expand(units[1..]) == s[i + units[0].run..]
  {
    var u := units[0];
    var t := s[i..];
    assert units == [u] + units[1..];
    ExpandCons(u, units[1..]);
    forall k | i <= k < i + u.run
      ensures s[k] == u.c
    {
      assert s[k] == t[k - i] == Repeat(u.c, u.run)[k - i];
    }
    assert t[u.run..] == Expand(units[1..]);
    assert t[u.run..] == s[i + u.run..];
  }

  /** The encoding is the only canonical stream that expands to the column:
      the greedy emitter is determined by the two properties above. */
  lemma {:induction false} RleFromUnique(units: seq<BwtUnit>, s: seq<byte>, i: nat)
    requires i <= |s|
    requires Canonical(units)
    requires Expand(units) == s[i..]
    ensures units == RleFrom(s, i)
    decreases |s| - i
  {
    if i == |s| {
      EmptyExpansion(units);
    } else {
      FirstUnitIsFirstRun(units, s, i);
      RleFromUnique(units[1..], s, i + units[0].run);
      assert units == [units[0]] + units[1..];
    }
  }

  /** Only the empty stream of packed units expands to nothing. */
  lemma EmptyExpansion(units: seq<BwtUnit>)
    requires Canonical(units)
    requires Expand(units) == []
    ensures units == []
  {
  }

  /** The first unit of a canonical stream that expands to s[i..] is the
      first unit of the encoding from `i`, and the rest of the stream is
      again canonical and expands to what follows the run. */
  lemma FirstUnitIsFirstRun(units: seq<BwtUnit>, s: seq<byte>, i: nat)
    requires i < |s| && Canonical(units)
    requires Expand(units) == s[i..]
    ensures units != [] && 1 <= units[0].run && i + units[0].run <= |s|
    ensures Canonical(units[1..])
    ensures Expand(units[1..]) == s[i + units[0].run..]
    ensures RleFrom(s, i) == [units[0]] + RleFrom(s, i + units[0].run)
  {
    RunEndsAtChange(units, s, i);
    var u := units[0];
    PeelUnit(units, s, i);
    assert u == Packed(s[i], u.run);
    RleFromFirstRun(s, i, u.run);
  }

  /** In a canonical stream that expands to s[i..], the first unit ends at
      the cap, at the end of s or before a different symbol. */
  lemma RunEndsAtChange(units: seq<BwtUnit>, s: seq<byte>, i: nat)
    requires i < |s| && Canonical(units)
    requires Expand(units) == s[i..]
    ensures units != [] && units[0].c == s[i]
    ensures var r := units[0].run;
      r == MaxRun || i + r == |s| || s[i + r] != s[i]
  {
    assert units != [] by {
      assert |s[i..]| > 0;
    }
    var u := units[0];
    PeelUnit(units, s, i);
    if u.run < MaxRun && i + u.run < |s| {
      assert units[1..] != [] by {
        assert |s[i + u.run..]| > 0;
      }
      PeelUnit(units[1..], s, i + u.run);
      assert units[1..][0] == units[1];
      assert u.c != units[1].c;
    }
  }

  lemma RleEncodeUnique(units: seq<BwtUnit>, s: seq<byte>)
    requires Canonical(units)
    requires Expand(units) == s
    ensures units == RleEncode(s)
  {
    assert s[0..] == s;
    RleFromUnique(units, s, 0);
  }

  /** A run of 40 equal symbols followed by a different one is written as
      units of 32 and 8, then the other symbol. */
  lemma RleFortyThenOther(c: byte, d: byte)
    requires c != d
    ensures RleEncode(Repeat(c, 40) + [d]) == [Packed(c, 32), Packed(c, 8), Packed(d, 1)]
  {
    var units := [Packed(c, 32), Packed(c, 8), Packed(d, 1)];
    assert units[1..] == [Packed(c, 8), Packed(d, 1)];
    assert units[1..][1..] == [Packed(d, 1)];
    assert Expand([Packed(d, 1)]) == [d];
    assert Canonical(units[1..][1..]) && Canonical(units[1..]);
    assert Expand(units) == Repeat(c, 40) + [d];
    RleEncodeUnique(units, Repeat(c, 40) + [d]);
  }
}
