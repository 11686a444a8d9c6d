/**
 * The legacy option-string parser of malloc_init_hard in jemalloc/src/jemalloc.c.
 *
 * An option string is a run of flag letters, each optionally preceded by a
 * decimal repeat count. Every letter adjusts one of the global `opt_*`
 * variables, exactly count times; a character the build does not support is
 * reported once per repetition and changes nothing.
 */
module MallocOptions {
  import opened Arith

  /** log2 of the quantum; x86-64 value. */
  const LG_QUANTUM: nat := 4
  /** log2 of the cache line size. */
  const LG_CACHELINE: nat := 6
  /** log2 of the page size (4 KiB pages). */
  const PAGE_SHIFT: nat := 12
  /** sizeof(size_t) << 3. */
  const SIZE_T_BITS: nat := 64

  /** The optional features a build may include; their letters are unsupported otherwise. */
  datatype Features = Features(tcache: bool, fill: bool, swap: bool, trace: bool,
                               sysv: bool, xmalloc: bool)

  /** The boolean `opt_*` variables. */
  datatype Switches = Switches(abort: bool, junk: bool, zero: bool, statsPrint: bool,
                               overcommit: bool, trace: bool, sysv: bool, xmalloc: bool)

  /** The size_t variables that place the size-class boundaries, as log2 values. */
  datatype SizeClasses = SizeClasses(lgQspaceMax: nat, lgCspaceMax: nat, lgMediumMax: nat, lgChunk: nat)

  /**
   * The remaining tunables: `opt_lg_dirty_mult` and `opt_lg_tcache_gc_sweep`
   * are signed (they go down to -1, "disabled"), `opt_narenas_lshift` is an int.
   */
  datatype Tuning = Tuning(lgDirtyMult: int, lgTcacheGcSweep: int, lgTcacheNslots: nat, narenasLshift: int)

  /** The option variables the parser writes. */
  datatype Options = Options(switches: Switches, classes: SizeClasses, tuning: Tuning)

  /** The option variables together with the characters reported as unsupported, in report order. */
  datatype State = State(vars: Options, reports: seq<char>)

  /** The boolean options, one per pair of switch letters. */
  datatype Switch = Abort | Junk | Overcommit | StatsPrint | Trace | Sysv | Xmalloc | Zero

  /** What one case of the switch does. */
  datatype Flag =
    | Set(option: Switch, value: bool)
    | LowerCspace | RaiseCspace
    | RaiseDirtyMult | LowerDirtyMult
    | LowerGcSweep | RaiseGcSweep
    | LowerNslots | RaiseNslots
    | LowerChunk | RaiseChunk
    | LowerMedium | RaiseMedium
    | LowerLshift | RaiseLshift
    | LowerQspace | RaiseQspace
    | Unsupported(c: char)

  /** The flags that move a size-class boundary. */
  predicate IsSizeClassFlag(flag: Flag)
  {
    flag.LowerCspace? || flag.RaiseCspace? || flag.LowerQspace? || flag.RaiseQspace?
    || flag.LowerMedium? || flag.RaiseMedium? || flag.LowerChunk? || flag.RaiseChunk?
  }

  predicate IsDigit(c: char) { '0' <= c <= '9' }

  predicate IsLower(c: char) { 'a' <= c <= 'z' }

  predicate IsUpper(c: char) { 'A' <= c <= 'Z' }

  function DigitValue(c: char): (d: nat)
    requires IsDigit(c)
    ensures d < 10
  {
    c as int - '0' as int
  }

  /** The case labels of the switch; a letter of a feature the build lacks falls to `default`. */
  function Decode(f: Features, c: char): Flag
  {
    if IsLower(c) then DecodeLower(f, c)
    else if IsUpper(c) then DecodeUpper(f, c)
    else Unsupported(c)
  }

  function DecodeLower(f: Features, c: char): Flag
  {
    match c
    case 'a' => Set(Abort, false)
    case 'c' => LowerCspace
    case 'd' => RaiseDirtyMult
    case 'g' => if f.tcache then LowerGcSweep else Unsupported(c)
    case 'h' => if f.tcache then LowerNslots else Unsupported(c)
    case 'j' => if f.fill then Set(Junk, false) else Unsupported(c)
    case 'k' => LowerChunk
    case 'm' => LowerMedium
    case 'n' => LowerLshift
    case 'o' => if f.swap then Set(Overcommit, false) else Unsupported(c)
    case 'p' => Set(StatsPrint, false)
    case 'q' => LowerQspace
    case 't' => if f.trace then Set(Trace, false) else Unsupported(c)
    case 'v' => if f.sysv then Set(Sysv, false) else Unsupported(c)
    case 'x' => if f.xmalloc then Set(Xmalloc, false) else Unsupported(c)
    case 'z' => if f.fill then Set(Zero, false) else Unsupported(c)
    case _ => Unsupported(c)
  }

  function DecodeUpper(f: Features, c: char): Flag
  {
    match c
    case 'A' => Set(Abort, true)
    case 'C' => RaiseCspace
    case 'D' => LowerDirtyMult
    case 'G' => if f.tcache then RaiseGcSweep else Unsupported(c)
    case 'H' => if f.tcache then RaiseNslots else Unsupported(c)
    case 'J' => if f.fill then Set(Junk, true) else Unsupported(c)
    case 'K' => RaiseChunk
    case 'M' => RaiseMedium
    case 'N' => RaiseLshift
    case 'O' => if f.swap then Set(Overcommit, true) else Unsupported(c)
    case 'P' => Set(StatsPrint, true)
    case 'Q' => RaiseQspace
    case 'T' => if f.trace then Set(Trace, true) else Unsupported(c)
    case 'V' => if f.sysv then Set(Sysv, true) else Unsupported(c)
    case 'X' => if f.xmalloc then Set(Xmalloc, true) else Unsupported(c)
    case 'Z' => if f.fill then Set(Zero, true) else Unsupported(c)
    case _ => Unsupported(c)
  }

  function SetSwitch(o: Switches, w: Switch, v: bool): Switches
  {
    match w
    case Abort => o.(abort := v)
    case Junk => o.(junk := v)
    case Overcommit => o.(overcommit := v)
    case StatsPrint => o.(statsPrint := v)
    case Trace => o.(trace := v)
    case Sysv => o.(sysv := v)
    case Xmalloc => o.(xmalloc := v)
    case Zero => o.(zero := v)
  }

  /**
   * The size-class cases: one step in the flag's direction, taken only when
   * the source's guard allows it. 'c' compares `opt_lg_cspace_max - 1` in
   * size_t, hence the Wrap; 'k' compares the chunk size with twice a page
   * plus the largest medium size.
   */
  function AdjustClasses(o: SizeClasses, flag: Flag): SizeClasses
  {
    match flag
    case LowerCspace =>
      if Wrap(o.lgCspaceMax - 1) > o.lgQspaceMax && o.lgCspaceMax > LG_CACHELINE
      then o.(lgCspaceMax := o.lgCspaceMax - 1) else o
    case RaiseCspace =>
      if o.lgCspaceMax < PAGE_SHIFT - 1 then o.(lgCspaceMax := o.lgCspaceMax + 1) else o
    case LowerChunk =>
      if o.lgChunk >= 1 && Pow2(o.lgChunk - 1) >= Pow2(PAGE_SHIFT + 1) + Pow2(o.lgMediumMax)
      then o.(lgChunk := o.lgChunk - 1) else o
    case RaiseChunk =>
      if o.lgChunk + 1 < SIZE_T_BITS then o.(lgChunk := o.lgChunk + 1) else o
    case LowerMedium =>
      if o.lgMediumMax > PAGE_SHIFT then o.(lgMediumMax := o.lgMediumMax - 1) else o
    case RaiseMedium =>
      if o.lgMediumMax + 1 < o.lgChunk then o.(lgMediumMax := o.lgMediumMax + 1) else o
    case LowerQspace =>
      if o.lgQspaceMax > LG_QUANTUM then o.(lgQspaceMax := o.lgQspaceMax - 1) else o
    case RaiseQspace =>
      if o.lgQspaceMax + 1 < o.lgCspaceMax then o.(lgQspaceMax := o.lgQspaceMax + 1) else o
    case _ => o
  }

  /**
   * The other size cases. The signed options are compared with
   * `sizeof(size_t) << 3` after the usual conversion to size_t, hence the Wrap.
   */
  function AdjustTuning(o: Tuning, flag: Flag): Tuning
  {
    match flag
    case RaiseDirtyMult =>
      if Wrap(o.lgDirtyMult + 1) < SIZE_T_BITS then o.(lgDirtyMult := o.lgDirtyMult + 1) else o
    case LowerDirtyMult =>
      if o.lgDirtyMult >= 0 then o.(lgDirtyMult := o.lgDirtyMult - 1) else o
    case LowerGcSweep =>
      if o.lgTcacheGcSweep >= 0 then o.(lgTcacheGcSweep := o.lgTcacheGcSweep - 1) else o
    case RaiseGcSweep =>
      if Wrap(o.lgTcacheGcSweep + 1) < SIZE_T_BITS then o.(lgTcacheGcSweep := o.lgTcacheGcSweep + 1) else o
    case LowerNslots =>
      if o.lgTcacheNslots > 0 then o.(lgTcacheNslots := o.lgTcacheNslots - 1) else o
    case RaiseNslots =>
      if o.lgTcacheNslots + 1 < SIZE_T_BITS then o.(lgTcacheNslots := o.lgTcacheNslots + 1) else o
    case LowerLshift => o.(narenasLshift := o.narenasLshift - 1)
    case RaiseLshift => o.(narenasLshift := o.narenasLshift + 1)
    case _ => o
  }

  /** The case body of a supported flag. */
  function Adjust(o: Options, flag: Flag): Options
  {
    if flag.Set? then o.(switches := SetSwitch(o.switches, flag.option, flag.value))
    else if IsSizeClassFlag(flag) then o.(classes := AdjustClasses(o.classes, flag))
    else if flag.Unsupported? then o
    else o.(tuning := AdjustTuning(o.tuning, flag))
  }

  /** One pass of the switch: a case body, or the "Unsupported character" report. */
  function Step(s: State, flag: Flag): State
  {
    if flag.Unsupported? then s.(reports := s.reports + [flag.c]) else s.(vars := Adjust(s.vars, flag))
  }

  /** The switch executed n times. */
  function Repeat(s: State, flag: Flag, n: nat): State
  {
    if n == 0 then s else Step(Repeat(s, flag, n - 1), flag)
  }

  /** The number of digits at the front of w. */
  function LeadingDigits(w: string): (n: nat)
    ensures n <= |w|
    ensures forall i :: 0 <= i < n ==> IsDigit(w[i])
    ensures n < |w| ==> !IsDigit(w[n])
  {
    if |w| == 0 || !IsDigit(w[0]) then 0 else 1 + LeadingDigits(w[1..])
  }

  predicate AllDigits(ds: string)
  {
    forall i :: 0 <= i < |ds| ==> IsDigit(ds[i])
  }

  /** The value of a digit run in unbounded arithmetic. */
  function Decimal(ds: string): nat
    requires AllDigits(ds)
  {
    if |ds| == 0 then 0 else 10 * Decimal(ds[..|ds| - 1]) + DigitValue(ds[|ds| - 1])
  }

  /** `nreps *= 10; nreps += opts[j] - '0'` over an `unsigned`, digit by digit. */
  function Nreps(ds: string): (n: nat)
    requires AllDigits(ds)
    ensures n < UINT_LIMIT
  {
    if |ds| == 0 then 0 else (Nreps(ds[..|ds| - 1]) * 10 + DigitValue(ds[|ds| - 1])) % UINT_LIMIT
  }

  /** The repeat count of a flag: 1 without digits (`nseen == false`), else the parsed value. */
  function RepeatCount(ds: string): nat
    requires AllDigits(ds)
  {
    if |ds| == 0 then 1 else Nreps(ds)
  }

  /**
   * What the parser is given: a C string (no NUL inside) whose digit runs are
   * all followed by a flag character, so the last character is no digit.
   */
  predicate WellFormed(opts: string)
  {
    (forall i :: 0 <= i < |opts| ==> opts[i] != '\0')
    && (|opts| == 0 || !IsDigit(opts[|opts| - 1]))
  }

  /** The digits at the front of a well-formed nonempty string stop before its end. */
  lemma DigitsStopBeforeEnd(opts: string)
    requires WellFormed(opts) && |opts| > 0
    ensures LeadingDigits(opts) < |opts|
  {
  }

  lemma SuffixWellFormed(opts: string, j: nat)
    requires WellFormed(opts) && j <= |opts|
    ensures WellFormed(opts[j..])
  {
  }

  /** The whole option string: each flag with its repeat count, left to right. */
  function Parse(f: Features, s: State, opts: string): State
    requires WellFormed(opts)
    decreases |opts|
  {
    if |opts| == 0 then s
    else
      var e := LeadingDigits(opts);
      DigitsStopBeforeEnd(opts);
      SuffixWellFormed(opts, e + 1);
      Parse(f, Repeat(s, Decode(f, opts[e]), RepeatCount(opts[..e])), opts[e + 1..])
  }

  // ---------------------------------------------------------------------
  // Repeat counts and the shape of the string
  // ---------------------------------------------------------------------

  /** The digit-by-digit unsigned accumulation is the decimal value modulo 2^32. */
  lemma {:induction false} NrepsIsDecimalModulo(ds: string)
    requires AllDigits(ds)
    ensures Nreps(ds) == Decimal(ds) % UINT_LIMIT
  {
    if |ds| > 0 {
      var init := ds[..|ds| - 1];
      var d := DigitValue(ds[|ds| - 1]);
      NrepsIsDecimalModulo(init);
      ModOfAffine(Decimal(init), 10, d, UINT_LIMIT);
    }
  }

  /** (a mod m) * k + d and a * k + d agree modulo m. */
  lemma ModOfAffine(a: nat, k: nat, d: nat, m: nat)
    requires m > 0
    ensures ((a % m) * k + d) % m == (a * k + d) % m
  {
    var q := a / m;
    assert a == q * m + a % m;
    assert a * k + d == (a % m) * k + d + (q * k) * m by {
      assert a * k == (q * m) * k + (a % m) * k;
      assert (q * m) * k == (q * k) * m;
    }
    ShiftByMultiple((a % m) * k + d, q * k, m);
  }

  lemma ShiftByMultiple(x: nat, t: nat, m: nat)
    requires m > 0
    ensures (x + t * m) % m == x % m
  {
    DivModUnique(x + t * m, m, x / m + t, x % m);
  }

  /** A repeat count below 2^32 written in decimal is parsed exactly. */
  lemma SmallCountExact(ds: string)
    requires AllDigits(ds) && |ds| > 0 && Decimal(ds) < UINT_LIMIT
    ensures RepeatCount(ds) == Decimal(ds)
  {
    NrepsIsDecimalModulo(ds);
  }

  /** A flag with its count in front of the rest of the string: the flag applies count times, then the rest. */
  lemma {:induction false} ParseFlag(f: Features, s: State, ds: string, c: char, rest: string)
    requires AllDigits(ds) && !IsDigit(c)
    requires WellFormed(ds + [c] + rest)
    ensures WellFormed(rest)
    ensures Parse(f, s, ds + [c] + rest) == Parse(f, Repeat(s, Decode(f, c), RepeatCount(ds)), rest)
  {
    var w := ds + [c] + rest;
    LeadingDigitsOfFlag(ds, c, rest);
    assert w[..|ds|] == ds;
    assert w[|ds| + 1..] == rest;
    SuffixWellFormed(w, |ds| + 1);
  }

  lemma {:induction false} LeadingDigitsOfFlag(ds: string, c: char, rest: string)
    requires AllDigits(ds) && !IsDigit(c)
    ensures LeadingDigits(ds + [c] + rest) == |ds| && (ds + [c] + rest)[|ds|] == c
    decreases |ds|
  {
    var w := ds + [c] + rest;
    if |ds| > 0 {
      assert w[1..] == ds[1..] + [c] + rest;
      LeadingDigitsOfFlag(ds[1..], c, rest);
    }
  }

  /** Parsing a concatenation of well-formed strings parses one after the other. */
  lemma {:induction false} ParseAppend(f: Features, s: State, a: string, b: string)
    requires WellFormed(a) && WellFormed(b) && WellFormed(a + b)
    ensures Parse(f, s, a + b) == Parse(f, Parse(f, s, a), b)
    decreases |a|
  {
    if |a| == 0 {
      assert a + b == b;
    } else {
      var e := LeadingDigits(a);
      DigitsStopBeforeEnd(a);
      var ds, c, rest := a[..e], a[e], a[e + 1..];
      assert a == ds + [c] + rest;
      assert a + b == ds + [c] + (rest + b);
      ParseFlag(f, s, ds, c, rest);
      ParseFlag(f, s, ds, c, rest + b);
      ParseAppend(f, Repeat(s, Decode(f, c), RepeatCount(ds)), rest, b);
    }
  }

  /**
   * A count whose decimal value is a multiple of 2^32 (0 among them) wraps
   * the unsigned counter to 0 and skips the flag: no adjustment, no report.
   */
  lemma CountWrapsToZero(f: Features, s: State, ds: string, c: char, rest: string)
    requires AllDigits(ds) && |ds| > 0 && Decimal(ds) % UINT_LIMIT == 0
    requires !IsDigit(c) && WellFormed(ds + [c] + rest)
    ensures WellFormed(rest)
    ensures Parse(f, s, ds + [c] + rest) == Parse(f, s, rest)
  {
    ParseFlag(f, s, ds, c, rest);
    NrepsIsDecimalModulo(ds);
  }

  // ---------------------------------------------------------------------
  // What the flags do
  // ---------------------------------------------------------------------

  /** An unsupported character changes no option variable and is reported once per repetition. */
  lemma {:induction false} UnsupportedChangesNothing(s: State, c: char, n: nat)
    ensures Repeat(s, Unsupported(c), n).vars == s.vars
    ensures |Repeat(s, Unsupported(c), n).reports| == |s.reports| + n
    ensures Repeat(s, Unsupported(c), n).reports[..|s.reports|] == s.reports
    ensures forall i :: |s.reports| <= i < |s.reports| + n ==> Repeat(s, Unsupported(c), n).reports[i] == c
  {
    if n > 0 {
      UnsupportedChangesNothing(s, c, n - 1);
    }
  }

  /** Every character that is not a letter is unsupported, whatever the build. */
  lemma NonLetterUnsupported(f: Features, c: char)
    requires !IsLower(c) && !IsUpper(c)
    ensures Decode(f, c) == Unsupported(c)
  {
  }

  /** A feature's lower-case letters are unsupported exactly when the build leaves the feature out. */
  lemma FeatureLettersLower(f: Features)
    ensures Decode(f, 'g').Unsupported? == !f.tcache && Decode(f, 'h').Unsupported? == !f.tcache
    ensures Decode(f, 'j').Unsupported? == !f.fill && Decode(f, 'z').Unsupported? == !f.fill
    ensures Decode(f, 'o').Unsupported? == !f.swap && Decode(f, 't').Unsupported? == !f.trace
    ensures Decode(f, 'v').Unsupported? == !f.sysv && Decode(f, 'x').Unsupported? == !f.xmalloc
  {
  }

  /** ... and so are its upper-case letters. */
  lemma FeatureLettersUpper(f: Features)
    ensures Decode(f, 'G').Unsupported? == !f.tcache && Decode(f, 'H').Unsupported? == !f.tcache
    ensures Decode(f, 'J').Unsupported? == !f.fill && Decode(f, 'Z').Unsupported? == !f.fill
    ensures Decode(f, 'O').Unsupported? == !f.swap && Decode(f, 'T').Unsupported? == !f.trace
    ensures Decode(f, 'V').Unsupported? == !f.sysv && Decode(f, 'X').Unsupported? == !f.xmalloc
  {
  }

  /** A supported flag produces no report. */
  lemma {:induction false} SupportedReportsNothing(s: State, flag: Flag, n: nat)
    requires !flag.Unsupported?
    ensures Repeat(s, flag, n).reports == s.reports
  {
    if n > 0 {
      SupportedReportsNothing(s, flag, n - 1);
    }
  }

  /** Of two letters for the same boolean option, the second decides it. */
  lemma LastSwitchWins(o: Options, w: Switch, v: bool, u: bool)
    ensures Adjust(Adjust(o, Set(w, v)), Set(w, u)) == Adjust(o, Set(w, u))
  {
    match w
    case Abort =>
    case Junk =>
    case Overcommit =>
    case StatsPrint =>
    case Trace =>
    case Sysv =>
    case Xmalloc =>
    case Zero =>
  }

  /** Repeating a switch letter any positive number of times is applying it once. */
  lemma {:induction false} SwitchRepeat(s: State, w: Switch, v: bool, n: nat)
    requires n >= 1
    ensures Repeat(s, Set(w, v), n) == Step(s, Set(w, v))
  {
    if n > 1 {
      SwitchRepeat(s, w, v, n - 1);
      LastSwitchWins(s.vars, w, v, v);
    }
  }

  /** 'q' repeated n times lowers opt_lg_qspace_max by n but never below LG_QUANTUM. */
  lemma {:induction false} RepeatLowerQspace(s: State, n: nat)
    requires s.vars.classes.lgQspaceMax >= LG_QUANTUM
    ensures var q := s.vars.classes.lgQspaceMax;
      Repeat(s, LowerQspace, n).vars
      == s.vars.(classes := s.vars.classes.(lgQspaceMax := if q - n >= LG_QUANTUM then q - n else LG_QUANTUM))
  {
    if n > 0 {
      RepeatLowerQspace(s, n - 1);
    }
  }

  /** 'Q' repeated n times raises opt_lg_qspace_max by n while it stays below opt_lg_cspace_max. */
  lemma {:induction false} RepeatRaiseQspace(s: State, n: nat)
    requires s.vars.classes.lgQspaceMax < s.vars.classes.lgCspaceMax
    ensures var q, c := s.vars.classes.lgQspaceMax, s.vars.classes.lgCspaceMax;
      Repeat(s, RaiseQspace, n).vars
      == s.vars.(classes := s.vars.classes.(lgQspaceMax := if q + n < c then q + n else c - 1))
  {
    if n > 0 {
      RepeatRaiseQspace(s, n - 1);
    }
  }

  /** 'm' repeated n times lowers opt_lg_medium_max by n but never below PAGE_SHIFT. */
  lemma {:induction false} RepeatLowerMedium(s: State, n: nat)
    requires s.vars.classes.lgMediumMax >= PAGE_SHIFT
    ensures var m := s.vars.classes.lgMediumMax;
      Repeat(s, LowerMedium, n).vars
      == s.vars.(classes := s.vars.classes.(lgMediumMax := if m - n >= PAGE_SHIFT then m - n else PAGE_SHIFT))
  {
    if n > 0 {
      RepeatLowerMedium(s, n - 1);
    }
  }

  /** 'M' repeated n times raises opt_lg_medium_max by n while it stays below opt_lg_chunk. */
  lemma {:induction false} RepeatRaiseMedium(s: State, n: nat)
    requires s.vars.classes.lgMediumMax < s.vars.classes.lgChunk
    ensures var m, k := s.vars.classes.lgMediumMax, s.vars.classes.lgChunk;
      Repeat(s, RaiseMedium, n).vars
      == s.vars.(classes := s.vars.classes.(lgMediumMax := if m + n < k then m + n else k - 1))
  {
    if n > 0 {
      RepeatRaiseMedium(s, n - 1);
    }
  }

  /** 'N' repeated n times raises opt_narenas_lshift by exactly n: the source sets no bound. */
  lemma {:induction false} RepeatRaiseLshift(s: State, n: nat)
    ensures Repeat(s, RaiseLshift, n).vars
         == s.vars.(tuning := s.vars.tuning.(narenasLshift := s.vars.tuning.narenasLshift + n))
  {
    if n > 0 {
      RepeatRaiseLshift(s, n - 1);
    }
  }

  /** 'n' repeated n times lowers opt_narenas_lshift by exactly n. */
  lemma {:induction false} RepeatLowerLshift(s: State, n: nat)
    ensures Repeat(s, LowerLshift, n).vars
         == s.vars.(tuning := s.vars.tuning.(narenasLshift := s.vars.tuning.narenasLshift - n))
  {
    if n > 0 {
      RepeatLowerLshift(s, n - 1);
    }
  }

  /**
   * The size_t comparison in 'c' never sees the wrapped value of
   * `opt_lg_cspace_max - 1`: the second conjunct fails first whenever it would.
   */
  lemma CspaceGuardIgnoresWrap(c: nat, q: nat)
    requires IsSizeT(c)
    ensures (Wrap(c - 1) > q && c > LG_CACHELINE) == (c - 1 > q && c > LG_CACHELINE)
  {
  }

  /**
   * The conversion to size_t in 'd' and 'G' makes a negative ssize_t value
   * huge, so only a value in 0 .. 63 passes the guard.
   */
  lemma SignedGuard(x: int)
    requires -0x8000_0000_0000_0000 <= x < 0x8000_0000_0000_0000
    ensures (Wrap(x) < SIZE_T_BITS) == (0 <= x < SIZE_T_BITS)
  {
    if x < 0 {
      DivModUnique(x, SIZE_T_LIMIT, -1, x + SIZE_T_LIMIT);
    }
  }

  /**
   * The ranges the clamped size-class adjusters keep: each lower bound is
   * the one its decrementing letter tests, each upper bound the one its
   * incrementing letter tests, and the orderings qspace < cspace and
   * medium < chunk are the ones 'Q', 'c', 'M' and 'k' test.
   */
  predicate ClassesBounded(o: SizeClasses)
  {
    && LG_QUANTUM <= o.lgQspaceMax < o.lgCspaceMax
    && LG_CACHELINE <= o.lgCspaceMax <= PAGE_SHIFT - 1
    && PAGE_SHIFT <= o.lgMediumMax < o.lgChunk < SIZE_T_BITS
  }

  /** The ranges of the other clamped adjusters; opt_narenas_lshift has none. */
  predicate TuningBounded(o: Tuning)
  {
    && -1 <= o.lgDirtyMult < SIZE_T_BITS
    && -1 <= o.lgTcacheGcSweep < SIZE_T_BITS
    && o.lgTcacheNslots < SIZE_T_BITS
  }

  predicate Bounded(o: Options)
  {
    ClassesBounded(o.classes) && TuningBounded(o.tuning)
  }

  /** 'k' lowers opt_lg_chunk only while it stays above opt_lg_medium_max. */
  lemma ChunkStaysAboveMedium(o: SizeClasses)
    requires o.lgChunk >= 1 && Pow2(o.lgChunk - 1) >= Pow2(PAGE_SHIFT + 1) + Pow2(o.lgMediumMax)
    ensures o.lgMediumMax < o.lgChunk - 1
  {
    if o.lgChunk - 1 <= o.lgMediumMax {
      Pow2Monotone(o.lgChunk - 1, o.lgMediumMax);
      assert false;
    }
  }

  lemma ClassesKeepBounds(o: SizeClasses, flag: Flag)
    requires ClassesBounded(o)
    ensures ClassesBounded(AdjustClasses(o, flag))
  {
    if flag == LowerChunk && o.lgChunk >= 1 && Pow2(o.lgChunk - 1) >= Pow2(PAGE_SHIFT + 1) + Pow2(o.lgMediumMax) {
      ChunkStaysAboveMedium(o);
    }
  }

  /** No flag takes a bounded state out of its bounds. */
  lemma AdjustKeepsBounds(o: Options, flag: Flag)
    requires Bounded(o)
    ensures Bounded(Adjust(o, flag))
  {
    ClassesKeepBounds(o.classes, flag);
  }

  lemma {:induction false} RepeatKeepsBounds(s: State, flag: Flag, n: nat)
    requires Bounded(s.vars)
    ensures Bounded(Repeat(s, flag, n).vars)
  {
    if n > 0 {
      RepeatKeepsBounds(s, flag, n - 1);
      AdjustKeepsBounds(Repeat(s, flag, n - 1).vars, flag);
    }
  }

  /** Parsing any option string keeps the option variables within their bounds. */
  lemma {:induction false} ParseKeepsBounds(f: Features, s: State, opts: string)
    requires WellFormed(opts) && Bounded(s.vars)
    ensures Bounded(Parse(f, s, opts).vars)
    decreases |opts|
  {
    if |opts| > 0 {
      var e := LeadingDigits(opts);
      DigitsStopBeforeEnd(opts);
      SuffixWellFormed(opts, e + 1);
      var next := Repeat(s, Decode(f, opts[e]), RepeatCount(opts[..e]));
      RepeatKeepsBounds(s, Decode(f, opts[e]), RepeatCount(opts[..e]));
      ParseKeepsBounds(f, next, opts[e + 1..]);
    }
  }

  // ---------------------------------------------------------------------
  // The parser as the source runs it: the globals updated in place
  // ---------------------------------------------------------------------

  /** The `opt_*` globals, in their three groups, and the unsupported-character messages written so far. */
  class OptionVars {
    var switches: Switches
    var classes: SizeClasses
    var tuning: Tuning
    var reports: seq<char>

    function Snapshot(): State
      reads this
    {
      State(Options(switches, classes, tuning), reports)
    }

    constructor (o: Options)
      ensures Snapshot() == State(o, [])
    {
      switches, classes, tuning := o.switches, o.classes, o.tuning;
      reports := [];
    }

    /** One pass of the switch on opts[j], given its case. */
    method StepInPlace(flag: Flag)
      modifies this
      ensures Snapshot() == Step(old(Snapshot()), flag)
    {
      if flag.Set? {
        SetSwitchInPlace(flag.option, flag.value);
      } else if flag.Unsupported? {
        reports := reports + [flag.c];
      } else if IsSizeClassFlag(flag) {
        AdjustClassesInPlace(flag);
      } else {
        AdjustTuningInPlace(flag);
      }
    }

    /** The cases of the sixteen switch letters. */
    method SetSwitchInPlace(w: Switch, v: bool)
      modifies this
      ensures Snapshot() == Step(old(Snapshot()), Set(w, v))
    {
      match w
      case Abort => switches := switches.(abort := v);
      case Junk => switches := switches.(junk := v);
      case Overcommit => switches := switches.(overcommit := v);
      case StatsPrint => switches := switches.(statsPrint := v);
      case Trace => switches := switches.(trace := v);
      case Sysv => switches := switches.(sysv := v);
      case Xmalloc => switches := switches.(xmalloc := v);
      case Zero => switches := switches.(zero := v);
    }

    /** The cases of c, C, q, Q, m, M, k and K. */
    method AdjustClassesInPlace(flag: Flag)
      requires IsSizeClassFlag(flag)
      modifies this
      ensures Snapshot() == Step(old(Snapshot()), flag)
    {
      match flag
      case LowerCspace =>
        if Wrap(classes.lgCspaceMax - 1) > classes.lgQspaceMax && classes.lgCspaceMax > LG_CACHELINE {
          classes := classes.(lgCspaceMax := classes.lgCspaceMax - 1);
        }
      case RaiseCspace =>
        if classes.lgCspaceMax < PAGE_SHIFT - 1 {
          classes := classes.(lgCspaceMax := classes.lgCspaceMax + 1);
        }
      case LowerQspace =>
        if classes.lgQspaceMax > LG_QUANTUM {
          classes := classes.(lgQspaceMax := classes.lgQspaceMax - 1);
        }
      case RaiseQspace =>
        if classes.lgQspaceMax + 1 < classes.lgCspaceMax {
          classes := classes.(lgQspaceMax := classes.lgQspaceMax + 1);
        }
      case LowerMedium =>
        if classes.lgMediumMax > PAGE_SHIFT {
          classes := classes.(lgMediumMax := classes.lgMediumMax - 1);
        }
      case RaiseMedium =>
        if classes.lgMediumMax + 1 < classes.lgChunk {
          classes := classes.(lgMediumMax := classes.lgMediumMax + 1);
        }
      case LowerChunk =>
        if classes.lgChunk >= 1 && Pow2(classes.lgChunk - 1) >= Pow2(PAGE_SHIFT + 1) + Pow2(classes.lgMediumMax) {
          classes := classes.(lgChunk := classes.lgChunk - 1);
        }
      case RaiseChunk =>
        if classes.lgChunk + 1 < SIZE_T_BITS {
          classes := classes.(lgChunk := classes.lgChunk + 1);
        }
    }

    /** The cases of d, D, g, G, h, H, n and N. */
    method AdjustTuningInPlace(flag: Flag)
      requires !flag.Set? && !flag.Unsupported? && !IsSizeClassFlag(flag)
      modifies this
      ensures Snapshot() == Step(old(Snapshot()), flag)
    {
      match flag
      case RaiseDirtyMult =>
        if Wrap(tuning.lgDirtyMult + 1) < SIZE_T_BITS {
          tuning := tuning.(lgDirtyMult := tuning.lgDirtyMult + 1);
        }
      case LowerDirtyMult =>
        if tuning.lgDirtyMult >= 0 {
          tuning := tuning.(lgDirtyMult := tuning.lgDirtyMult - 1);
        }
      case LowerGcSweep =>
        if tuning.lgTcacheGcSweep >= 0 {
          tuning := tuning.(lgTcacheGcSweep := tuning.lgTcacheGcSweep - 1);
        }
      case RaiseGcSweep =>
        if Wrap(tuning.lgTcacheGcSweep + 1) < SIZE_T_BITS {
          tuning := tuning.(lgTcacheGcSweep := tuning.lgTcacheGcSweep + 1);
        }
      case LowerNslots =>
        if tuning.lgTcacheNslots > 0 {
          tuning := tuning.(lgTcacheNslots := tuning.lgTcacheNslots - 1);
        }
      case RaiseNslots =>
        if tuning.lgTcacheNslots + 1 < SIZE_T_BITS {
          tuning := tuning.(lgTcacheNslots := tuning.lgTcacheNslots + 1);
        }
      case LowerLshift => tuning := tuning.(narenasLshift := tuning.narenasLshift - 1);
      case RaiseLshift => tuning := tuning.(narenasLshift := tuning.narenasLshift + 1);
    }

    /** The inner `for (k = 0; k < nreps; k++)` loop: the switch on c, nreps times. */
    method RepeatInPlace(f: Features, c: char, nreps: nat)
      modifies this
      ensures Snapshot() == Repeat(old(Snapshot()), Decode(f, c), nreps)
    {
      ghost var before := Snapshot();
      var k := 0;
      while k < nreps
        invariant k <= nreps
        invariant Snapshot() == Repeat(before, Decode(f, c), k)
      {
        StepInPlace(Decode(f, c));
        k := k + 1;
      }
    }

    /** The parsing loop of malloc_init_hard over one option string. */
    method ParseOptions(f: Features, opts: string)
      requires WellFormed(opts)
      modifies this
      ensures Snapshot() == Parse(f, old(Snapshot()), opts)
    {
      ghost var s0 := Snapshot();
      var j := 0;
      while j < |opts|
        invariant j <= |opts|
        invariant WellFormed(opts[j..])
        invariant Parse(f, s0, opts) == Parse(f, Snapshot(), opts[j..])
        decreases |opts| - j
      {
        ghost var before := Snapshot();
        var e, nreps := ScanCount(opts, j);
        RepeatInPlace(f, opts[e], nreps);
        ParseStep(f, before, opts, j, e);
        j := e + 1;
      }
    }
  }

  /**
   * The repetition-count loop: digits from j on, accumulated in an unsigned;
   * e is the index of the flag letter that follows them.
   */
  method ScanCount(opts: string, j: nat) returns (e: nat, nreps: nat)
    requires j < |opts| && WellFormed(opts[j..])
    ensures j <= e < |opts| && AllDigits(opts[j..e]) && !IsDigit(opts[e])
    ensures nreps == RepeatCount(opts[j..e])
  {
    e := j;
    nreps := 0;
    var nseen := false;
    while IsDigit(opts[e])
      invariant j <= e < |opts|
      invariant AllDigits(opts[j..e])
      invariant nreps == Nreps(opts[j..e])
      invariant nseen <==> e > j
      decreases |opts| - e
    {
      assert opts[j..e + 1] == opts[j..e] + [opts[e]];
      assert opts[j..e + 1][..e - j] == opts[j..e];
      nreps := (nreps * 10 + DigitValue(opts[e])) % UINT_LIMIT;
      LastIsNoDigit(opts, j, e);
      e := e + 1;
      nseen := true;
    }
    if !nseen {
      nreps := 1;
    }
  }

  /** A digit of a well-formed suffix is never its last character. */
  lemma LastIsNoDigit(opts: string, j: nat, e: nat)
    requires j <= e < |opts| && WellFormed(opts[j..]) && IsDigit(opts[e])
    ensures e + 1 < |opts|
  {
    assert opts[j..][|opts| - 1 - j] == opts[|opts| - 1];
  }

  /** One iteration of the outer loop in terms of Parse over the remaining input. */
  lemma ParseStep(f: Features, s: State, opts: string, j0: nat, j: nat)
    requires j0 <= j < |opts| && WellFormed(opts[j0..])
    requires AllDigits(opts[j0..j]) && !IsDigit(opts[j])
    ensures WellFormed(opts[j + 1..])
    ensures Parse(f, s, opts[j0..])
         == Parse(f, Repeat(s, Decode(f, opts[j]), RepeatCount(opts[j0..j])), opts[j + 1..])
  {
    assert opts[j0..] == opts[j0..j] + [opts[j]] + opts[j + 1..];
    ParseFlag(f, s, opts[j0..j], opts[j], opts[j + 1..]);
  }
}
