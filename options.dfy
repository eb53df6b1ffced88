/** The command-line switch of `main` (tools/main_gsacak.c:71-98), applied to
    options that getopt/atoi have already tokenised, and the validation of the
    gap width that follows it (lines 110-117). */
module Options {
  import opened Common

  /** One option as getopt returns it; -g and -m carry atoi's value. */
  datatype Flag =
    | Check            // -c
    | OutputSa         // -s
    | ComputeLcp       // -l
    | Verbose          // -v
    | Extract          // -X
    | Bwt              // -b
    | RleBwt           // -r
    | Gap(width: int)  // -g D
    | Ram(mb: int)     // -m RAM
    | Out(base: seq<byte>) // -o OUT, as the bytes of the C string

  /** The variables the switch sets. */
  datatype Config = Config(
    validate: bool,       // VALIDATE
    outputSa: bool,       // OUTPUT
    computeLcp: bool,     // LCP_COMPUTE
    verbose: nat,         // Verbose
    extract: nat,         // Extract
    outputBwt: nat,       // OutputBwt
    gapWidth: int,        // OutputGapLcp
    ram: nat,             // RAM, in bytes
    outfile: Option<seq<byte>>)

  const MB: nat := 1048576

  /** How the BWT is written, as decided by OutputBwt. */
  datatype BwtMode = NoBwt | PlainBwt | RunLengthBwt

  /** Number of occurrences of `f` in `flags`. */
  function Count(flags: seq<Flag>, f: Flag): nat
  {
    if flags == [] then 0
    else Count(flags[..|flags| - 1], f) + (if flags[|flags| - 1] == f then 1 else 0)
  }

  /** Options that turn LCP computation on: -l, and -g whatever its value. */
  predicate ForcesLcp(f: Flag)
  {
    f == ComputeLcp || f.Gap?
  }

  /** Whether some option in `flags` turns LCP computation on. */
  predicate LcpForced(flags: seq<Flag>)
  {
    flags != [] && (ForcesLcp(flags[|flags| - 1]) || LcpForced(flags[..|flags| - 1]))
  }

  lemma {:induction false} LcpForcedByFlag(flags: seq<Flag>)
    ensures LcpForced(flags) <==> exists j :: 0 <= j < |flags| && ForcesLcp(flags[j])
  {
    if flags != [] {
      var last := |flags| - 1;
      LcpForcedByFlag(flags[..last]);
      if LcpForced(flags[..last]) {
        var j :| 0 <= j < last && ForcesLcp(flags[..last][j]);
        assert ForcesLcp(flags[j]);
      }
      if j :| 0 <= j < |flags| && ForcesLcp(flags[j]) {
        if j < last {
          assert ForcesLcp(flags[..last][j]);
        }
      }
    }
  }

  /** The value of the last -g, or 0 when there is none. */
  function LastGap(flags: seq<Flag>): int
  {
    if flags == [] then 0
    else if flags[|flags| - 1].Gap? then flags[|flags| - 1].width
    else LastGap(flags[..|flags| - 1])
  }

  /** RAM in bytes for `-m mb`: `(size_t)atoi(optarg)*MB`, computed in size_t. */
  function RamBytes(mb: int): nat
  {
    ((mb % U64) * MB) % U64
  }

  /** RAM set by the last -m, or 0 (unlimited) when there is none. */
  function LastRam(flags: seq<Flag>): nat
  {
    if flags == [] then 0
    else if flags[|flags| - 1].Ram? then RamBytes(flags[|flags| - 1].mb)
    else LastRam(flags[..|flags| - 1])
  }

  /** The base name given by the last -o, if any. */
  function LastOut(flags: seq<Flag>): Option<seq<byte>>
  {
    if flags == [] then None
    else if flags[|flags| - 1].Out? then Some(flags[|flags| - 1].base)
    else LastOut(flags[..|flags| - 1])
  }

  /** The option loop of `main`: every option updates the configuration in turn. */
  method ApplyFlags(flags: seq<Flag>) returns (cfg: Config)
    ensures cfg.validate <==> Check in flags
    ensures cfg.outputSa <==> OutputSa in flags
    ensures cfg.computeLcp <==> exists j :: 0 <= j < |flags| && ForcesLcp(flags[j])
    ensures cfg.verbose == Count(flags, Verbose)
    ensures cfg.extract == 2 * Count(flags, Extract)
    ensures cfg.outputBwt == Count(flags, Bwt) + 2 * Count(flags, RleBwt)
    ensures cfg.gapWidth == LastGap(flags)
    ensures cfg.ram == LastRam(flags)
    ensures cfg.outfile == LastOut(flags)
  {
    cfg := Config(false, false, false, 0, 0, 0, 0, 0, None);
    var i := 0;
    while i < |flags|
      invariant 0 <= i <= |flags|
      invariant cfg.validate <==> Count(flags[..i], Check) > 0
      invariant cfg.outputSa <==> Count(flags[..i], OutputSa) > 0
      invariant cfg.computeLcp <==> LcpForced(flags[..i])
      invariant cfg.verbose == Count(flags[..i], Verbose)
      invariant cfg.extract == 2 * Count(flags[..i], Extract)
      invariant cfg.outputBwt == Count(flags[..i], Bwt) + 2 * Count(flags[..i], RleBwt)
      invariant cfg.gapWidth == LastGap(flags[..i])
      invariant cfg.ram == LastRam(flags[..i])
      invariant cfg.outfile == LastOut(flags[..i])
    {
      PrefixStep(flags, i);
      match flags[i] {
        case Check => cfg := cfg.(validate := true);
        case OutputSa => cfg := cfg.(outputSa := true);
        case ComputeLcp => cfg := cfg.(computeLcp := true);
        case Verbose => cfg := cfg.(verbose := cfg.verbose + 1);
        case Extract => cfg := cfg.(extract := cfg.extract + 2);
        case Bwt => cfg := cfg.(outputBwt := cfg.outputBwt + 1);
        case RleBwt => cfg := cfg.(outputBwt := cfg.outputBwt + 2);
        case Gap(d) => cfg := cfg.(gapWidth := d, computeLcp := true);
        case Ram(mb) => cfg := cfg.(ram := RamBytes(mb));
        case Out(base) => cfg := cfg.(outfile := Some(base));
      }
      i := i + 1;
    }
    assert flags[..i] == flags;
    CountPositive(flags, Check);
    CountPositive(flags, OutputSa);
    LcpForcedByFlag(flags);
  }

  /** How each summary of a prefix of `flags` changes when it grows by one option. */
  lemma PrefixStep(flags: seq<Flag>, i: nat)
    requires i < |flags|
    ensures forall f :: Count(flags[..i + 1], f) == Count(flags[..i], f) + (if flags[i] == f then 1 else 0)
    ensures LcpForced(flags[..i + 1]) <==> ForcesLcp(flags[i]) || LcpForced(flags[..i])
    ensures LastGap(flags[..i + 1]) == if flags[i].Gap? then flags[i].width else LastGap(flags[..i])
    ensures LastRam(flags[..i + 1]) == if flags[i].Ram? then RamBytes(flags[i].mb) else LastRam(flags[..i])
    ensures LastOut(flags[..i + 1]) == if flags[i].Out? then Some(flags[i].base) else LastOut(flags[..i])
  {
    assert flags[..i + 1][..i] == flags[..i];
  }

  /** A flag occurs exactly when it is counted at least once. */
  lemma {:induction false} CountPositive(flags: seq<Flag>, f: Flag)
    ensures Count(flags, f) > 0 <==> f in flags
  {
    if flags != [] {
      var init := flags[..|flags| - 1];
      CountPositive(init, f);
      assert flags == init + [flags[|flags| - 1]];
    }
  }

  /** The BWT mode chosen by OutputBwt: none at 0, plain at 1, run-length from 2 on (line 301). */
  function Mode(outputBwt: nat): (m: BwtMode)
    ensures m == RunLengthBwt <==> outputBwt > 1
    ensures m == PlainBwt <==> outputBwt == 1
  {
    if outputBwt == 0 then NoBwt else if outputBwt == 1 then PlainBwt else RunLengthBwt
  }

  /** -r alone, -b with -r, and -b given twice all select run-length output;
      plain output needs exactly one -b and no -r. */
  lemma ModeOfFlags(flags: seq<Flag>)
    ensures (Mode(Count(flags, Bwt) + 2 * Count(flags, RleBwt)) == RunLengthBwt)
              <==> (RleBwt in flags || Count(flags, Bwt) >= 2)
    ensures (Mode(Count(flags, Bwt) + 2 * Count(flags, RleBwt)) == PlainBwt)
              <==> (Bwt in flags && Count(flags, Bwt) == 1 && RleBwt !in flags)
    ensures (Mode(Count(flags, Bwt) + 2 * Count(flags, RleBwt)) == NoBwt)
              <==> (Bwt !in flags && RleBwt !in flags)
  {
    CountPositive(flags, Bwt);
    CountPositive(flags, RleBwt);
  }

  /** A nonzero gap width can only come from a -g, which also turned LCP on,
      so the gap writer always finds the LCP array computed. */
  lemma {:induction false} GapWidthForcesLcp(flags: seq<Flag>)
    requires LastGap(flags) != 0
    ensures exists j :: 0 <= j < |flags| && ForcesLcp(flags[j])
  {
    var last := |flags| - 1;
    if !flags[last].Gap? {
      GapWidthForcesLcp(flags[..last]);
      var j :| 0 <= j < last && ForcesLcp(flags[..last][j]);
      assert ForcesLcp(flags[j]);
    } else {
      assert ForcesLcp(flags[last]);
    }
  }

  /** Size of the `char s[500]` buffers the output names are formatted into. */
  const NameBuffer: nat := 500

  const BwtSuffix: seq<byte> := [0x2E, 0x62, 0x77, 0x74]                       // ".bwt"
  const RleBwtSuffix: seq<byte> := [0x2E, 0x72, 0x6C, 0x65, 0x2E, 0x62, 0x77, 0x74] // ".rle.bwt"
  const SizeSuffix: seq<byte> := [0x2E, 0x73, 0x69, 0x7A, 0x65]                 // ".size"

  /** What `snprintf(s, size, ...)` leaves in `s`: the formatted bytes, cut
      to size - 1 bytes so that the terminating NUL fits. */
  function Snprintf(size: nat, formatted: seq<byte>): (r: seq<byte>)
    requires size >= 1
    ensures |r| < size && |r| <= |formatted| && r == formatted[..|r|]
    ensures |formatted| < size ==> r == formatted
    ensures |formatted| >= size ==> |r| == size - 1
  {
    if |formatted| < size then formatted else formatted[..size - 1]
  }

  /** Name of the BWT output file (lines 193-195): OUT.bwt for OutputBwt == 1,
      OUT.rle.bwt otherwise, truncated to the 499 bytes the buffer holds. */
  function BwtFileName(base: seq<byte>, outputBwt: nat): (name: seq<byte>)
    requires outputBwt != 0
    ensures |name| < NameBuffer
    ensures Mode(outputBwt) == PlainBwt && |base| + |BwtSuffix| < NameBuffer ==> name == base + BwtSuffix
    ensures Mode(outputBwt) == RunLengthBwt && |base| + |RleBwtSuffix| < NameBuffer ==> name == base + RleBwtSuffix
    ensures |base| + |RleBwtSuffix| < NameBuffer ==> (name == base + BwtSuffix <==> Mode(outputBwt) == PlainBwt)
    ensures |base| + |RleBwtSuffix| < NameBuffer ==> (name == base + RleBwtSuffix <==> Mode(outputBwt) == RunLengthBwt)
    ensures |base| >= NameBuffer - 1 ==> name == base[..NameBuffer - 1]
  {
    Snprintf(NameBuffer, base + if outputBwt == 1 then BwtSuffix else RleBwtSuffix)
  }

  /** Name of the file that receives the size record (lines 197-198). */
  function SizeFileName(base: seq<byte>): (name: seq<byte>)
    ensures |name| < NameBuffer
    ensures |base| + |SizeSuffix| < NameBuffer ==> name == base + SizeSuffix
    ensures |base| >= NameBuffer - 1 ==> name == base[..NameBuffer - 1]
  {
    Snprintf(NameBuffer, base + SizeSuffix)
  }

  /** A 496-byte base with -b loses the last byte of ".bwt". */
  lemma PlainNameCut(base: seq<byte>)
    requires |base| == 496
    ensures BwtFileName(base, 1) == base + [0x2E, 0x62, 0x77]
  {
    assert (base + BwtSuffix)[..499] == base + [0x2E, 0x62, 0x77];
  }

  /** A base of 499 bytes or more fills the buffer, so the BWT and the size
      record are written to one and the same file name. */
  lemma LongBaseNamesCollide(base: seq<byte>, outputBwt: nat)
    requires outputBwt != 0 && |base| >= NameBuffer - 1
    ensures BwtFileName(base, outputBwt) == SizeFileName(base)
  {
  }

  /** Up to 491 bytes of base, the two files have distinct names. */
  lemma ShortBaseNamesDiffer(base: seq<byte>, outputBwt: nat)
    requires outputBwt != 0 && |base| + |RleBwtSuffix| < NameBuffer
    ensures BwtFileName(base, outputBwt) != SizeFileName(base)
  {
    var k := |base| + 1;
    assert SizeFileName(base)[k] == 0x73;
    assert BwtFileName(base, outputBwt)[k] != 0x73;
  }

  /** The gap-width checks of lines 110-117, with `w` the byte width of int_t.
      Width 0 is accepted and means that no gap-encoded LCP is written. */
  function ValidateGapWidth(d: int, w: nat): (r: Result<nat, ConfigError>)
    ensures r.Ok? <==> 0 <= d <= 7 && d <= w
    ensures r.Ok? ==> r.value == d
    ensures r.Err? ==> (r.error == GapWidthOutOfRange <==> d < 0 || d >= 8)
    ensures r.Err? ==> r.error in {GapWidthOutOfRange, GapWiderThanIndex}
  {
    if d < 0 || d >= 8 then Err(GapWidthOutOfRange)
    else if d > w then Err(GapWiderThanIndex)
    else Ok(d)
  }
}
