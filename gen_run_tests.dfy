/**
 * The test-matrix generator of scripts/gen_run_tests.py: it enumerates every
 * combination of a compiler pair with a subset of each of three option
 * catalogs, drops the clang + --enable-prof combinations, and emits for every
 * other one a configure / make clean / make check block, wrapped in a Darwin
 * guard when the combination uses a feature OS X lacks.
 *
 * Printing is modelled as appending to the sequence of output lines.
 */
module RunTests {
  import Arith

  // ---------------------------------------------------------------------
  // itertools.combinations and powerset
  // ---------------------------------------------------------------------

  /** The tuples [lo :: t | t in ts]. */
  function Cons(lo: nat, ts: seq<seq<nat>>): (r: seq<seq<nat>>)
    ensures |r| == |ts|
  {
    if |ts| == 0 then [] else Cons(lo, ts[..|ts| - 1]) + [[lo] + ts[|ts| - 1]]
  }

  lemma {:induction false} ConsAt(lo: nat, ts: seq<seq<nat>>, i: nat)
    requires i < |ts|
    ensures Cons(lo, ts)[i] == [lo] + ts[i]
  {
    if i < |ts| - 1 {
      ConsAt(lo, ts[..|ts| - 1], i);
    }
  }

  /**
   * The index tuples that itertools.combinations produces for k elements
   * drawn from the positions lo, lo+1, ..., n-1: every increasing tuple,
   * those starting with lo first.
   */
  function Combos(lo: nat, n: nat, k: nat): seq<seq<nat>>
    decreases n - lo, k
  {
    if k == 0 then [[]]
    else if lo >= n then []
    else Cons(lo, Combos(lo + 1, n, k - 1)) + Combos(lo + 1, n, k)
  }

  /** Every position lies in [lo, n). */
  predicate InRange(t: seq<nat>, lo: nat, n: nat)
  {
    forall i :: 0 <= i < |t| ==> lo <= t[i] < n
  }

  /** Positions strictly increase. */
  predicate Ascending(t: seq<nat>)
  {
    forall i, j :: 0 <= i < j < |t| ==> t[i] < t[j]
  }

  lemma ConsTuple(t: seq<nat>, lo: nat, n: nat)
    requires lo < n && InRange(t, lo + 1, n) && Ascending(t)
    ensures InRange([lo] + t, lo, n) && Ascending([lo] + t)
  {
    var u := [lo] + t;
    forall i, j | 0 <= i < j < |u| ensures u[i] < u[j] {
      assert u[j] == t[j - 1];
      if i > 0 {
        assert u[i] == t[i - 1];
      }
    }
  }

  lemma {:induction false} CombosShape(lo: nat, n: nat, k: nat)
    ensures forall i :: 0 <= i < |Combos(lo, n, k)| ==>
      |Combos(lo, n, k)[i]| == k && InRange(Combos(lo, n, k)[i], lo, n) && Ascending(Combos(lo, n, k)[i])
    decreases n - lo, k
  {
    if k > 0 && lo < n {
      CombosShape(lo + 1, n, k - 1);
      CombosShape(lo + 1, n, k);
      var c1, c2 := Combos(lo + 1, n, k - 1), Combos(lo + 1, n, k);
      var c := Combos(lo, n, k);
      assert c == Cons(lo, c1) + c2;
      forall i | 0 <= i < |c|
        ensures |c[i]| == k && InRange(c[i], lo, n) && Ascending(c[i])
      {
        if i < |c1| {
          ConsAt(lo, c1, i);
          ConsTuple(c1[i], lo, n);
        } else {
          assert c[i] == c2[i - |c1|];
        }
      }
    }
  }

  /** No tuple has more elements than there are positions. */
  lemma {:induction false} CombosTooMany(lo: nat, n: nat, k: nat)
    requires lo <= n && k > n - lo
    ensures Combos(lo, n, k) == []
    decreases n - lo
  {
    if lo < n {
      CombosTooMany(lo + 1, n, k - 1);
      CombosTooMany(lo + 1, n, k);
    }
  }

  /** Strict lexicographic order on index tuples. */
  predicate LexLess(u: seq<nat>, v: seq<nat>)
  {
    |v| > 0 && (|u| == 0 || u[0] < v[0] || (u[0] == v[0] && LexLess(u[1..], v[1..])))
  }

  /** combinations yields its tuples in strictly increasing lexicographic order. */
  lemma {:induction false} CombosSorted(lo: nat, n: nat, k: nat)
    ensures forall a, b :: 0 <= a < b < |Combos(lo, n, k)| ==>
      LexLess(Combos(lo, n, k)[a], Combos(lo, n, k)[b])
    decreases n - lo, k
  {
    if k > 0 && lo < n {
      var c1, c2 := Combos(lo + 1, n, k - 1), Combos(lo + 1, n, k);
      var c := Combos(lo, n, k);
      assert c == Cons(lo, c1) + c2;
      CombosSorted(lo + 1, n, k - 1);
      CombosSorted(lo + 1, n, k);
      CombosShape(lo + 1, n, k);
      forall a, b | 0 <= a < b < |c|
        ensures LexLess(c[a], c[b])
      {
        if b < |c1| {
          ConsAt(lo, c1, a);
          ConsAt(lo, c1, b);
          assert c[a] == [lo] + c1[a] && c[b] == [lo] + c1[b];
          assert c[a][1..] == c1[a];
          assert c[b][1..] == c1[b];
        } else if a < |c1| {
          var t := c2[b - |c1|];
          assert c[b] == t;
          assert InRange(t, lo + 1, n) && |t| == k;
          ConsAt(lo, c1, a);
          assert c[a][0] == lo < t[0];
        } else {
          assert c[a] == c2[a - |c1|] && c[b] == c2[b - |c1|];
        }
      }
    }
  }

  /** The binomial coefficient C(n, k), by Pascal's rule. */
  function Binom(n: nat, k: nat): nat
  {
    if k == 0 then 1 else if n == 0 then 0 else Binom(n - 1, k - 1) + Binom(n - 1, k)
  }

  /** combinations over the positions [lo, n) yields C(n - lo, k) tuples of size k. */
  lemma {:induction false} CombosCount(lo: nat, n: nat, k: nat)
    requires lo <= n
    ensures |Combos(lo, n, k)| == Binom(n - lo, k)
    decreases n - lo, k
  {
    if k > 0 && lo < n {
      CombosCount(lo + 1, n, k - 1);
      CombosCount(lo + 1, n, k);
    }
  }

  lemma {:induction false} BinomBeyond(n: nat, k: nat)
    requires k > n
    ensures Binom(n, k) == 0
  {
    if n > 0 {
      BinomBeyond(n - 1, k - 1);
      BinomBeyond(n - 1, k);
    }
  }

  /** C(n, 0) + ... + C(n, m - 1). */
  function BinomSum(n: nat, m: nat): nat
  {
    if m == 0 then 0 else BinomSum(n, m - 1) + Binom(n, m - 1)
  }

  /** Pascal's rule, summed over the sizes below m. */
  lemma {:induction false} BinomSumStep(n: nat, m: nat)
    requires m > 0
    ensures BinomSum(n + 1, m) == BinomSum(n, m - 1) + BinomSum(n, m)
  {
    if m > 1 {
      BinomSumStep(n, m - 1);
    }
  }

  /** The binomial coefficients of n sum to 2^n. */
  lemma {:induction false} BinomSumAll(n: nat)
    ensures BinomSum(n, n + 1) == Arith.Pow2(n)
  {
    if n > 0 {
      BinomSumAll(n - 1);
      BinomSumStep(n - 1, n + 1);
      BinomBeyond(n - 1, n);
    }
  }

  /** Index subsets of [0, n) of sizes 0..m-1, size by size. */
  function IndexSubsetsUpTo(n: nat, m: nat): (r: seq<seq<nat>>)
    ensures |r| == BinomSum(n, m)
  {
    if m == 0 then []
    else
      CombosCount(0, n, m - 1);
      IndexSubsetsUpTo(n, m - 1) + Combos(0, n, m - 1)
  }

  function IndexSubsets(n: nat): seq<seq<nat>>
  {
    IndexSubsetsUpTo(n, n + 1)
  }

  lemma {:induction false} IndexSubsetsShape(n: nat, m: nat)
    ensures forall i :: 0 <= i < |IndexSubsetsUpTo(n, m)| ==>
      |IndexSubsetsUpTo(n, m)[i]| < m && InRange(IndexSubsetsUpTo(n, m)[i], 0, n)
  {
    if m > 0 {
      var p, c := IndexSubsetsUpTo(n, m - 1), Combos(0, n, m - 1);
      var s := IndexSubsetsUpTo(n, m);
      assert s == p + c;
      IndexSubsetsShape(n, m - 1);
      CombosShape(0, n, m - 1);
      forall i | 0 <= i < |s| ensures |s[i]| < m && InRange(s[i], 0, n) {
        if i < |p| {
          assert s[i] == p[i];
        } else {
          assert s[i] == c[i - |p|];
        }
      }
    }
  }

  /** Subsets come by increasing size and, within one size, in lexicographic index order. */
  lemma {:induction false} IndexSubsetsOrdered(n: nat, m: nat)
    ensures forall a, b :: 0 <= a < b < |IndexSubsetsUpTo(n, m)| ==>
      |IndexSubsetsUpTo(n, m)[a]| < |IndexSubsetsUpTo(n, m)[b]|
      || (|IndexSubsetsUpTo(n, m)[a]| == |IndexSubsetsUpTo(n, m)[b]|
          && LexLess(IndexSubsetsUpTo(n, m)[a], IndexSubsetsUpTo(n, m)[b]))
  {
    if m > 0 {
      var p, c := IndexSubsetsUpTo(n, m - 1), Combos(0, n, m - 1);
      var s := IndexSubsetsUpTo(n, m);
      assert s == p + c;
      IndexSubsetsOrdered(n, m - 1);
      IndexSubsetsShape(n, m - 1);
      CombosShape(0, n, m - 1);
      CombosSorted(0, n, m - 1);
      forall a, b | 0 <= a < b < |s|
        ensures |s[a]| < |s[b]| || (|s[a]| == |s[b]| && LexLess(s[a], s[b]))
      {
        if b < |p| {
          assert s[a] == p[a] && s[b] == p[b];
        } else if a < |p| {
          assert s[a] == p[a];
          assert s[b] == c[b - |p|];
        } else {
          assert s[a] == c[a - |p|] && s[b] == c[b - |p|];
        }
      }
    }
  }

  /** The items at the given positions, as a tuple of catalog entries. */
  function Pick(items: seq<string>, idx: seq<nat>): (r: seq<string>)
    requires InRange(idx, 0, |items|)
    ensures |r| == |idx| && forall i :: 0 <= i < |idx| ==> r[i] == items[idx[i]]
  {
    seq(|idx|, i requires 0 <= i < |idx| => items[idx[i]])
  }

  predicate AllInRange(ts: seq<seq<nat>>, n: nat)
  {
    forall i :: 0 <= i < |ts| ==> InRange(ts[i], 0, n)
  }

  function PickAll(items: seq<string>, ts: seq<seq<nat>>): (r: seq<seq<string>>)
    requires AllInRange(ts, |items|)
    ensures |r| == |ts|
    ensures forall i :: 0 <= i < |ts| ==> r[i] == Pick(items, ts[i])
  {
    seq(|ts|, i requires 0 <= i < |ts| => Pick(items, ts[i]))
  }

  lemma PickAllAppend(items: seq<string>, ts: seq<seq<nat>>, us: seq<seq<nat>>)
    requires AllInRange(ts, |items|) && AllInRange(us, |items|)
    ensures AllInRange(ts + us, |items|)
    ensures PickAll(items, ts + us) == PickAll(items, ts) + PickAll(items, us)
  {
    assert forall i :: 0 <= i < |ts + us| ==> (ts + us)[i] == if i < |ts| then ts[i] else us[i - |ts|];
  }

  /** combinations(items, k) */
  function Combinations(items: seq<string>, k: nat): seq<seq<string>>
  {
    CombosShape(0, |items|, k);
    PickAll(items, Combos(0, |items|, k))
  }

  /** The value powerset(items) returns. */
  function Subsets(items: seq<string>): seq<seq<string>>
  {
    IndexSubsetsShape(|items|, |items| + 1);
    PickAll(items, IndexSubsets(|items|))
  }

  /** powerset: for i in 0..len(items), result += combinations(items, i). */
  method Powerset(items: seq<string>) returns (result: seq<seq<string>>)
    ensures result == Subsets(items)
  {
    result := [];
    for i := 0 to |items| + 1
      invariant AllInRange(IndexSubsetsUpTo(|items|, i), |items|)
      invariant result == PickAll(items, IndexSubsetsUpTo(|items|, i))
    {
      IndexSubsetsShape(|items|, i + 1);
      CombosShape(0, |items|, i);
      PickAllAppend(items, IndexSubsetsUpTo(|items|, i), Combos(0, |items|, i));
      result := result + Combinations(items, i);
    }
  }

  /** powerset returns 2^n tuples ... */
  lemma PowersetCount(items: seq<string>)
    ensures |Subsets(items)| == Arith.Pow2(|items|)
  {
    BinomSumAll(|items|);
  }

  /** ... the empty one first ... */
  lemma PowersetFirst(items: seq<string>)
    ensures |Subsets(items)| > 0 && Subsets(items)[0] == []
  {
    FirstOfUpTo(|items|, |items| + 1);
  }

  /** ... and the whole catalog, in catalog order, last. */
  lemma PowersetLast(items: seq<string>)
    ensures |Subsets(items)| > 0 && Subsets(items)[|Subsets(items)| - 1] == items
  {
    var n := |items|;
    var s := IndexSubsets(n);
    IndexSubsetsShape(n, n + 1);
    FullCombo(0, n);
    var full := Combos(0, n, n);
    assert s == IndexSubsetsUpTo(n, n) + full;
    assert s[|s| - 1] == Range(0, n);
    assert Pick(items, Range(0, n)) == items;
  }

  lemma {:induction false} FirstOfUpTo(n: nat, m: nat)
    requires m >= 1
    ensures |IndexSubsetsUpTo(n, m)| > 0 && IndexSubsetsUpTo(n, m)[0] == []
  {
    if m > 1 {
      FirstOfUpTo(n, m - 1);
    }
  }

  /** The positions lo, lo+1, ..., n-1. */
  function Range(lo: nat, n: nat): (r: seq<nat>)
    ensures |r| == if lo <= n then n - lo else 0
    ensures forall i :: 0 <= i < |r| ==> r[i] == lo + i
    decreases n - lo
  {
    if lo >= n then [] else [lo] + Range(lo + 1, n)
  }

  /** The single tuple of all of [lo, n). */
  lemma {:induction false} FullCombo(lo: nat, n: nat)
    requires lo <= n
    ensures Combos(lo, n, n - lo) == [Range(lo, n)]
    decreases n - lo
  {
    if lo < n {
      FullCombo(lo + 1, n);
      CombosTooMany(lo + 1, n, n - lo);
      assert Cons(lo, [Range(lo + 1, n)]) == [[lo] + Range(lo + 1, n)];
    }
  }

  /** Subset i of powerset(items) is the catalog entries at the positions of index subset i. */
  lemma SubsetsPick(items: seq<string>, i: nat)
    requires i < |Subsets(items)|
    ensures InRange(IndexSubsets(|items|)[i], 0, |items|)
    ensures Subsets(items)[i] == Pick(items, IndexSubsets(|items|)[i])
  {
    IndexSubsetsShape(|items|, |items| + 1);
  }

  // ---------------------------------------------------------------------
  // Rendering
  // ---------------------------------------------------------------------

  const MAKE_J_VAL: nat := 32

  const PossibleCompilers: seq<(string, string)> := [("gcc", "g++"), ("clang", "clang++")]
  const PossibleCompilerOpts: seq<string> := ["-m32"]
  const PossibleConfigOpts: seq<string> :=
    ["--enable-debug", "--enable-prof", "--disable-stats", "--with-malloc-conf=tcache:false"]
  const PossibleMallocConfOpts: seq<string> := ["tcache:false", "dss:primary"]

  const Preamble: seq<string> := ["set -e", "autoconf", "unamestr=`uname`"]
  const ConfigurePrefix: string := "EXTRA_CFLAGS=-Werror " + "EXTRA_CXXFLAGS=-Werror " + "./configure "
  const GuardOpen: string := "if [[ \"$unamestr\" != \"Darwin\" ]]; then"
  const GuardClose: string := "fi"
  const MakeClean: string := "make clean"

  /** A decimal digit, as str() prints it. */
  function Digit(d: nat): char
    requires d < 10
  {
    "0123456789"[d]
  }

  /** str(n) */
  function DecimalString(n: nat): (r: string)
    ensures |r| > 0
  {
    if n < 10 then [Digit(n)] else DecimalString(n / 10) + [Digit(n % 10)]
  }

  function MakeCheck(): string
  {
    "make -j" + DecimalString(MAKE_J_VAL) + " check"
  }

  /** sep.join(xs) */
  function Join(xs: seq<string>, sep: string): string
  {
    if |xs| == 0 then "" else if |xs| == 1 then xs[0] else xs[0] + sep + Join(xs[1..], sep)
  }

  /** One iteration of the four nested loops. */
  datatype Combination = Combination(
    cc: string, cxx: string,
    compilerOpts: seq<string>, configOpts: seq<string>, mallocConfOpts: seq<string>)

  /**
   * The skip rule: clang with --enable-prof. The -m32 clause tests the
   * compiler-option catalog, not the selected subset.
   */
  predicate Skipped(compilerCatalog: seq<string>, c: Combination)
  {
    SkipRule(compilerCatalog, c.cc, c.configOpts)
  }

  predicate SkipRule(compilerCatalog: seq<string>, cc: string, config: seq<string>)
  {
    cc == "clang" && "-m32" in compilerCatalog && "--enable-prof" in config
  }

  /** Heap profiling and dss are not supported on OS X. */
  predicate DarwinUnsupported(c: Combination)
  {
    "--enable-prof" in c.configOpts || "dss:primary" in c.mallocConfOpts
  }

  function MallocConfSuffix(conf: seq<string>): string
  {
    if |conf| > 0 then " --with-malloc-conf=" + Join(conf, ",") else ""
  }

  function ConfigureLine(c: Combination): string
  {
    ConfigurePrefix
    + ("CC=\"" + c.cc + " " + Join(c.compilerOpts, " ") + "\" "
       + "CXX=\"" + c.cxx + " " + Join(c.compilerOpts, " ") + "\" "
       + Join(c.configOpts, " ") + MallocConfSuffix(c.mallocConfOpts))
  }

  /** The lines one combination prints. */
  function Block(compilerCatalog: seq<string>, c: Combination): seq<string>
  {
    if Skipped(compilerCatalog, c) then []
    else
      var body := [ConfigureLine(c), MakeClean, MakeCheck()];
      if DarwinUnsupported(c) then [GuardOpen] + body + [GuardClose] else body
  }

  /** The lines printed for a run of combinations, in order. */
  function Render(compilerCatalog: seq<string>, cs: seq<Combination>): seq<string>
  {
    if |cs| == 0 then []
    else Render(compilerCatalog, cs[..|cs| - 1]) + Block(compilerCatalog, cs[|cs| - 1])
  }

  lemma {:induction false} RenderAppend(cat: seq<string>, a: seq<Combination>, b: seq<Combination>)
    ensures Render(cat, a + b) == Render(cat, a) + Render(cat, b)
    decreases |b|
  {
    if b == [] {
      assert a + b == a;
    } else {
      var b' := b[..|b| - 1];
      assert (a + b)[..|a + b| - 1] == a + b';
      assert (a + b)[|a + b| - 1] == b[|b| - 1];
      RenderAppend(cat, a, b');
    }
  }

  // ---------------------------------------------------------------------
  // The iteration order of the four nested loops
  // ---------------------------------------------------------------------

  /** Concatenation of a sequence of sequences, built from the front. */
  function Concat<T>(xss: seq<seq<T>>): seq<T>
  {
    if |xss| == 0 then [] else Concat(xss[..|xss| - 1]) + xss[|xss| - 1]
  }

  lemma {:induction false} ConcatUniformLength<T>(xss: seq<seq<T>>, w: nat)
    requires forall i :: 0 <= i < |xss| ==> |xss[i]| == w
    ensures |Concat(xss)| == |xss| * w
  {
    if xss != [] {
      ConcatUniformLength(xss[..|xss| - 1], w);
      Arith.MulSuccessor(|xss| - 1, w);
    }
  }

  /** Concatenating blocks of equal width w puts element j of block i at x = i * w + j. */
  lemma {:induction false} ConcatUniformAt<T>(xss: seq<seq<T>>, w: nat, i: nat, j: nat, x: int)
    requires forall i :: 0 <= i < |xss| ==> |xss[i]| == w
    requires i < |xss| && j < w && x == i * w + j
    ensures 0 <= x < |Concat(xss)|
    ensures Concat(xss)[x] == xss[i][j]
  {
    var m := |xss| - 1;
    var init := xss[..m];
    ConcatUniformLength(init, w);
    if i < m {
      BeforeLastBlock(m, w, i, j, x);
      ConcatUniformAt(init, w, i, j, x);
      ConcatFront(xss, x);
    } else {
      ConcatBack(xss, j);
    }
  }

  /** Element j of block i < m sits below m * w. */
  lemma BeforeLastBlock(m: nat, w: nat, i: nat, j: nat, x: int)
    requires i < m && j < w && x == i * w + j
    ensures x < m * w
  {
    Arith.MulMonotone(i + 1, m, w);
    Arith.MulSuccessor(i, w);
  }

  /** The front of the concatenation is the concatenation of all but the last block. */
  lemma ConcatFront<T>(xss: seq<seq<T>>, x: nat)
    requires |xss| > 0 && x < |Concat(xss[..|xss| - 1])|
    ensures x < |Concat(xss)| && Concat(xss)[x] == Concat(xss[..|xss| - 1])[x]
  {
  }

  /** The tail of the concatenation is the last block. */
  lemma ConcatBack<T>(xss: seq<seq<T>>, j: nat)
    requires |xss| > 0 && j < |xss[|xss| - 1]|
    ensures |Concat(xss[..|xss| - 1])| + j < |Concat(xss)|
    ensures Concat(xss)[|Concat(xss[..|xss| - 1])| + j] == xss[|xss| - 1][j]
  {
  }

  /** Innermost loop: every malloc-conf subset. */
  function Row(pair: (string, string), copts: seq<string>, config: seq<string>,
               confs: seq<seq<string>>): (r: seq<Combination>)
    ensures |r| == |confs|
  {
    seq(|confs|, l requires 0 <= l < |confs| => Combination(pair.0, pair.1, copts, config, confs[l]))
  }

  function Rows(pair: (string, string), copts: seq<string>, configs: seq<seq<string>>,
                confs: seq<seq<string>>): (r: seq<seq<Combination>>)
    ensures |r| == |configs|
    ensures forall k :: 0 <= k < |configs| ==> r[k] == Row(pair, copts, configs[k], confs)
  {
    seq(|configs|, k requires 0 <= k < |configs| => Row(pair, copts, configs[k], confs))
  }

  function Planes(pair: (string, string), coptss: seq<seq<string>>, configs: seq<seq<string>>,
                  confs: seq<seq<string>>): (r: seq<seq<Combination>>)
    ensures |r| == |coptss|
    ensures forall j :: 0 <= j < |coptss| ==> r[j] == Concat(Rows(pair, coptss[j], configs, confs))
  {
    seq(|coptss|, j requires 0 <= j < |coptss| => Concat(Rows(pair, coptss[j], configs, confs)))
  }

  function Cubes(pairs: seq<(string, string)>, coptss: seq<seq<string>>, configs: seq<seq<string>>,
                 confs: seq<seq<string>>): (r: seq<seq<Combination>>)
    ensures |r| == |pairs|
    ensures forall i :: 0 <= i < |pairs| ==> r[i] == Concat(Planes(pairs[i], coptss, configs, confs))
  {
    seq(|pairs|, i requires 0 <= i < |pairs| => Concat(Planes(pairs[i], coptss, configs, confs)))
  }

  /** Every combination, compiler pair outermost and malloc-conf subset innermost. */
  function AllCombinations(pairs: seq<(string, string)>, coptss: seq<seq<string>>,
                           configs: seq<seq<string>>, confs: seq<seq<string>>): seq<Combination>
  {
    Concat(Cubes(pairs, coptss, configs, confs))
  }

  lemma PlaneLength(pair: (string, string), copts: seq<string>, Q: seq<seq<string>>, R: seq<seq<string>>)
    ensures |Concat(Rows(pair, copts, Q, R))| == |Q| * |R|
  {
    ConcatUniformLength(Rows(pair, copts, Q, R), |R|);
  }

  lemma CubeLength(pair: (string, string), P: seq<seq<string>>, Q: seq<seq<string>>, R: seq<seq<string>>)
    ensures |Concat(Planes(pair, P, Q, R))| == |P| * (|Q| * |R|)
  {
    var planes := Planes(pair, P, Q, R);
    forall j | 0 <= j < |P| ensures |planes[j]| == |Q| * |R| {
      PlaneLength(pair, P[j], Q, R);
    }
    ConcatUniformLength(planes, |Q| * |R|);
  }

  lemma AllLength(pairs: seq<(string, string)>, P: seq<seq<string>>, Q: seq<seq<string>>, R: seq<seq<string>>)
    ensures |AllCombinations(pairs, P, Q, R)| == |pairs| * (|P| * (|Q| * |R|))
  {
    var cubes := Cubes(pairs, P, Q, R);
    forall i | 0 <= i < |pairs| ensures |cubes[i]| == |P| * (|Q| * |R|) {
      CubeLength(pairs[i], P, Q, R);
    }
    ConcatUniformLength(cubes, |P| * (|Q| * |R|));
  }

  lemma PlaneAt(pair: (string, string), copts: seq<string>, Q: seq<seq<string>>, R: seq<seq<string>>,
                k: nat, l: nat)
    requires k < |Q| && l < |R|
    ensures 0 <= k * |R| + l < |Concat(Rows(pair, copts, Q, R))|
    ensures Concat(Rows(pair, copts, Q, R))[k * |R| + l] == Combination(pair.0, pair.1, copts, Q[k], R[l])
  {
    ConcatUniformAt(Rows(pair, copts, Q, R), |R|, k, l, k * |R| + l);
    PlaneLength(pair, copts, Q, R);
  }

  lemma CubeAt(pair: (string, string), P: seq<seq<string>>, Q: seq<seq<string>>, R: seq<seq<string>>,
               j: nat, k: nat, l: nat)
    requires j < |P| && k < |Q| && l < |R|
    ensures 0 <= j * (|Q| * |R|) + (k * |R| + l) < |Concat(Planes(pair, P, Q, R))|
    ensures Concat(Planes(pair, P, Q, R))[j * (|Q| * |R|) + (k * |R| + l)]
         == Combination(pair.0, pair.1, P[j], Q[k], R[l])
  {
    var planes := Planes(pair, P, Q, R);
    forall j' | 0 <= j' < |P| ensures |planes[j']| == |Q| * |R| {
      PlaneLength(pair, P[j'], Q, R);
    }
    PlaneAt(pair, P[j], Q, R, k, l);
    ConcatUniformAt(planes, |Q| * |R|, j, k * |R| + l, j * (|Q| * |R|) + (k * |R| + l));
    CubeLength(pair, P, Q, R);
  }

  lemma CubesUniform(pairs: seq<(string, string)>, P: seq<seq<string>>, Q: seq<seq<string>>,
                     R: seq<seq<string>>)
    ensures forall i :: 0 <= i < |Cubes(pairs, P, Q, R)| ==> |Cubes(pairs, P, Q, R)[i]| == |P| * (|Q| * |R|)
  {
    var cubes := Cubes(pairs, P, Q, R);
    forall i | 0 <= i < |pairs| ensures |cubes[i]| == |P| * (|Q| * |R|) {
      CubeLength(pairs[i], P, Q, R);
    }
  }

  lemma CubesAt(pairs: seq<(string, string)>, P: seq<seq<string>>, Q: seq<seq<string>>,
                R: seq<seq<string>>, i: nat, j: nat, k: nat, l: nat)
    requires i < |pairs| && j < |P| && k < |Q| && l < |R|
    ensures |Cubes(pairs, P, Q, R)[i]| == |P| * (|Q| * |R|)
    ensures 0 <= j * (|Q| * |R|) + (k * |R| + l) < |P| * (|Q| * |R|)
    ensures Cubes(pairs, P, Q, R)[i][j * (|Q| * |R|) + (k * |R| + l)]
         == Combination(pairs[i].0, pairs[i].1, P[j], Q[k], R[l])
  {
    CubeAt(pairs[i], P, Q, R, j, k, l);
    CubeLength(pairs[i], P, Q, R);
  }

  /**
   * The iteration order, exactly: with V = |Q| * |R| combinations per
   * compiler-option subset and W = |P| * V per compiler pair, combination
   * number i * W + j * V + k * |R| + l is (pairs[i], P[j], Q[k], R[l]).
   */
  lemma IterationOrder(pairs: seq<(string, string)>, P: seq<seq<string>>, Q: seq<seq<string>>,
                       R: seq<seq<string>>, i: nat, j: nat, k: nat, l: nat)
    requires i < |pairs| && j < |P| && k < |Q| && l < |R|
    ensures 0 <= i * (|P| * (|Q| * |R|)) + (j * (|Q| * |R|) + (k * |R| + l)) < |AllCombinations(pairs, P, Q, R)|
    ensures AllCombinations(pairs, P, Q, R)[i * (|P| * (|Q| * |R|)) + (j * (|Q| * |R|) + (k * |R| + l))]
         == Combination(pairs[i].0, pairs[i].1, P[j], Q[k], R[l])
  {
    var w := |P| * (|Q| * |R|);
    var inner := j * (|Q| * |R|) + (k * |R| + l);
    CubesUniform(pairs, P, Q, R);
    CubesAt(pairs, P, Q, R, i, j, k, l);
    ConcatUniformAt(Cubes(pairs, P, Q, R), w, i, inner, i * w + inner);
  }

  // ---------------------------------------------------------------------
  // The generator
  // ---------------------------------------------------------------------

  /** The whole printed script for the given catalogs. */
  function Script(pairs: seq<(string, string)>, compilerOpts: seq<string>,
                  configOpts: seq<string>, mallocConfOpts: seq<string>): seq<string>
  {
    Preamble + Render(compilerOpts,
      AllCombinations(pairs, Subsets(compilerOpts), Subsets(configOpts), Subsets(mallocConfOpts)))
  }

  lemma AppendAssoc<T>(a: seq<T>, b: seq<T>, c: seq<T>)
    ensures (a + b) + c == a + (b + c)
  {
  }

  /** Printing one more block of a row extends the output by that block. */
  lemma RenderStep(cat: seq<string>, before: seq<string>, cs: seq<Combination>, l: nat)
    requires l < |cs|
    ensures (before + Render(cat, cs[..l])) + Block(cat, cs[l]) == before + Render(cat, cs[..l + 1])
  {
    assert cs[..l + 1][..l] == cs[..l];
    AppendAssoc(before, Render(cat, cs[..l]), Block(cat, cs[l]));
  }

  /** Finishing one more inner loop extends the output by that loop's lines. */
  lemma ConcatStep(cat: seq<string>, before: seq<string>, xss: seq<seq<Combination>>, k: nat)
    requires k < |xss|
    ensures (before + Render(cat, Concat(xss[..k]))) + Render(cat, xss[k])
         == before + Render(cat, Concat(xss[..k + 1]))
  {
    assert xss[..k + 1][..k] == xss[..k];
    RenderAppend(cat, Concat(xss[..k]), xss[k]);
    AppendAssoc(before, Render(cat, Concat(xss[..k])), Render(cat, xss[k]));
  }

  /** The body of the innermost loop: the skip test, then the block's print calls. */
  method EmitBlock(out: seq<string>, compilerOpts: seq<string>, cc: string, cxx: string,
                   copts: seq<string>, config: seq<string>, conf: seq<string>)
    returns (out': seq<string>)
    ensures out' == out + Block(compilerOpts, Combination(cc, cxx, copts, config, conf))
  {
    out' := out;
    if !(cc == "clang" && "-m32" in compilerOpts && "--enable-prof" in config) {
      var configLine := ConfigurePrefix
        + ("CC=\"" + cc + " " + Join(copts, " ") + "\" "
           + "CXX=\"" + cxx + " " + Join(copts, " ") + "\" "
           + Join(config, " ") + MallocConfSuffix(conf));
      var darwinUnsupported := "--enable-prof" in config || "dss:primary" in conf;
      if darwinUnsupported {
        out' := out' + [GuardOpen];
      }
      out' := out' + [configLine];
      out' := out' + [MakeClean];
      out' := out' + ["make -j" + DecimalString(MAKE_J_VAL) + " check"];
      if darwinUnsupported {
        out' := out' + [GuardClose];
      }
    }
  }

  /**
   * The two inner loops of the generator, for one compiler pair and one
   * compiler-option subset: every configure-option subset, and within it
   * every malloc-conf subset.
   */
  method EmitConfigLoops(out: seq<string>, pair: (string, string), copts: seq<string>,
                         compilerOpts: seq<string>, configOpts: seq<string>, mallocConfOpts: seq<string>)
    returns (out': seq<string>)
    ensures out' == out + Render(compilerOpts,
      Concat(Rows(pair, copts, Subsets(configOpts), Subsets(mallocConfOpts))))
  {
    out' := out;
    ghost var Q, R := Subsets(configOpts), Subsets(mallocConfOpts);
    ghost var rows := Rows(pair, copts, Q, R);
    var cc, cxx := pair.0, pair.1;
    var configs := Powerset(configOpts);
    assert rows[..0] == [];
    for k := 0 to |configs|
      invariant out' == out + Render(compilerOpts, Concat(rows[..k]))
    {
      ghost var out2 := out';
      ghost var row := Row(pair, copts, Q[k], R);
      var confs := Powerset(mallocConfOpts);
      assert row[..0] == [];
      for l := 0 to |confs|
        invariant out' == out2 + Render(compilerOpts, row[..l])
      {
        assert row[l] == Combination(cc, cxx, copts, configs[k], confs[l]);
        RenderStep(compilerOpts, out2, row, l);
        out' := EmitBlock(out', compilerOpts, cc, cxx, copts, configs[k], confs[l]);
      }
      assert row[..|R|] == row;
      ConcatStep(compilerOpts, out, rows, k);
    }
    assert rows[..|Q|] == rows;
  }

  /** The second loop of the generator, for one compiler pair: every compiler-option subset. */
  method EmitPlanes(out: seq<string>, pair: (string, string), compilerOpts: seq<string>,
                    configOpts: seq<string>, mallocConfOpts: seq<string>)
    returns (out': seq<string>)
    ensures out' == out + Render(compilerOpts,
      Concat(Planes(pair, Subsets(compilerOpts), Subsets(configOpts), Subsets(mallocConfOpts))))
  {
    out' := out;
    ghost var planes := Planes(pair, Subsets(compilerOpts), Subsets(configOpts), Subsets(mallocConfOpts));
    var coptss := Powerset(compilerOpts);
    assert planes[..0] == [];
    for j := 0 to |coptss|
      invariant out' == out + Render(compilerOpts, Concat(planes[..j]))
    {
      out' := EmitConfigLoops(out', pair, coptss[j], compilerOpts, configOpts, mallocConfOpts);
      ConcatStep(compilerOpts, out, planes, j);
    }
    assert planes[..|coptss|] == planes;
  }

  /** The outermost loop of the generator: every compiler pair. */
  method EmitCubes(out: seq<string>, pairs: seq<(string, string)>, compilerOpts: seq<string>,
                   configOpts: seq<string>, mallocConfOpts: seq<string>)
    returns (out': seq<string>)
    ensures out' == out + Render(compilerOpts,
      AllCombinations(pairs, Subsets(compilerOpts), Subsets(configOpts), Subsets(mallocConfOpts)))
  {
    out' := out;
    ghost var cubes := Cubes(pairs, Subsets(compilerOpts), Subsets(configOpts), Subsets(mallocConfOpts));
    assert cubes[..0] == [];
    for i := 0 to |pairs|
      invariant out' == out + Render(compilerOpts, Concat(cubes[..i]))
    {
      out' := EmitPlanes(out', pairs[i], compilerOpts, configOpts, mallocConfOpts);
      ConcatStep(compilerOpts, out, cubes, i);
    }
    assert cubes[..|pairs|] == cubes;
  }

  /** The module body of gen_run_tests.py: the preamble, then the four nested loops. */
  method Generate(pairs: seq<(string, string)>, compilerOpts: seq<string>,
                  configOpts: seq<string>, mallocConfOpts: seq<string>)
    returns (out: seq<string>)
    ensures out == Script(pairs, compilerOpts, configOpts, mallocConfOpts)
  {
    out := EmitCubes(Preamble, pairs, compilerOpts, configOpts, mallocConfOpts);
  }

  // ---------------------------------------------------------------------
  // What the script contains
  // ---------------------------------------------------------------------

  /** The number of lines that start with `prefix`. */
  function CountPrefixed(lines: seq<string>, prefix: string): nat
  {
    if |lines| == 0 then 0
    else CountPrefixed(lines[..|lines| - 1], prefix) + (if prefix <= lines[|lines| - 1] then 1 else 0)
  }

  lemma {:induction false} CountPrefixedAppend(a: seq<string>, b: seq<string>, prefix: string)
    ensures CountPrefixed(a + b, prefix) == CountPrefixed(a, prefix) + CountPrefixed(b, prefix)
    decreases |b|
  {
    if b == [] {
      assert a + b == a;
    } else {
      var b' := b[..|b| - 1];
      assert (a + b)[..|a + b| - 1] == a + b';
      assert (a + b)[|a + b| - 1] == b[|b| - 1];
      CountPrefixedAppend(a, b', prefix);
    }
  }

  /** The number of combinations that print a block. */
  function Emitted(cat: seq<string>, cs: seq<Combination>): nat
  {
    if |cs| == 0 then 0
    else Emitted(cat, cs[..|cs| - 1]) + (if Skipped(cat, cs[|cs| - 1]) then 0 else 1)
  }

  /** The number of combinations that print a block inside the Darwin guard. */
  function Guarded(cat: seq<string>, cs: seq<Combination>): nat
  {
    if |cs| == 0 then 0
    else
      var last := cs[|cs| - 1];
      Guarded(cat, cs[..|cs| - 1]) + (if !Skipped(cat, last) && DarwinUnsupported(last) then 1 else 0)
  }

  lemma {:induction false} EmittedAppend(cat: seq<string>, a: seq<Combination>, b: seq<Combination>)
    ensures Emitted(cat, a + b) == Emitted(cat, a) + Emitted(cat, b)
    decreases |b|
  {
    if b == [] {
      assert a + b == a;
    } else {
      var b' := b[..|b| - 1];
      assert (a + b)[..|a + b| - 1] == a + b';
      assert (a + b)[|a + b| - 1] == b[|b| - 1];
      EmittedAppend(cat, a, b');
    }
  }

  /** Two strings whose first characters differ are not prefixes of one another. */
  lemma NotPrefix(p: string, line: string)
    requires |p| > 0 && |line| > 0 && p[0] != line[0]
    ensures !(p <= line)
  {
  }

  lemma ConfigureLineShape(c: Combination)
    ensures ConfigurePrefix <= ConfigureLine(c)
    ensures ConfigureLine(c)[0] == 'E'
  {
    var line := ConfigureLine(c);
    assert line[..|ConfigurePrefix|] == ConfigurePrefix;
    assert line[0] == ConfigurePrefix[0];
  }

  lemma MakeCheckLine()
    ensures MakeCheck() == "make -j32 check"
  {
    assert DecimalString(32) == DecimalString(3) + [Digit(2)];
  }

  lemma CountOne(x: string, p: string)
    ensures CountPrefixed([x], p) == if p <= x then 1 else 0
  {
    assert [x][..0] == [];
  }

  lemma CountThree(x: string, y: string, z: string, p: string)
    ensures CountPrefixed([x, y, z], p)
         == (if p <= x then 1 else 0) + (if p <= y then 1 else 0) + (if p <= z then 1 else 0)
  {
    CountPrefixedAppend([x], [y, z], p);
    CountPrefixedAppend([y], [z], p);
    CountOne(x, p);
    CountOne(y, p);
    CountOne(z, p);
    assert [x] + [y, z] == [x, y, z];
    assert [y] + [z] == [y, z];
  }

  /** Which of the five line kinds of a block start with which of the three counted prefixes. */
  lemma LineKinds(c: Combination)
    ensures ConfigurePrefix <= ConfigureLine(c)
    ensures !(GuardOpen <= ConfigureLine(c)) && !(GuardClose <= ConfigureLine(c))
    ensures !(ConfigurePrefix <= MakeClean) && !(GuardOpen <= MakeClean) && !(GuardClose <= MakeClean)
    ensures !(ConfigurePrefix <= MakeCheck()) && !(GuardOpen <= MakeCheck()) && !(GuardClose <= MakeCheck())
    ensures GuardOpen <= GuardOpen && !(ConfigurePrefix <= GuardOpen) && !(GuardClose <= GuardOpen)
    ensures GuardClose <= GuardClose && !(ConfigurePrefix <= GuardClose) && !(GuardOpen <= GuardClose)
  {
    ConfigureLineShape(c);
    MakeCheckLine();
    var line := ConfigureLine(c);
    NotPrefix(GuardOpen, line);
    NotPrefix(GuardClose, line);
    NotPrefix(ConfigurePrefix, MakeClean);
    NotPrefix(GuardOpen, MakeClean);
    NotPrefix(GuardClose, MakeClean);
    NotPrefix(ConfigurePrefix, MakeCheck());
    NotPrefix(GuardOpen, MakeCheck());
    NotPrefix(GuardClose, MakeCheck());
    NotPrefix(ConfigurePrefix, GuardOpen);
    NotPrefix(GuardClose, GuardOpen);
    NotPrefix(ConfigurePrefix, GuardClose);
    NotPrefix(GuardOpen, GuardClose);
  }

  /** The three counts of one block, for one prefix. */
  lemma BlockCount(cat: seq<string>, c: Combination, p: string)
    requires !Skipped(cat, c)
    ensures CountPrefixed(Block(cat, c), p)
         == (if DarwinUnsupported(c) then (if p <= GuardOpen then 1 else 0) + (if p <= GuardClose then 1 else 0) else 0)
          + (if p <= ConfigureLine(c) then 1 else 0) + (if p <= MakeClean then 1 else 0)
          + (if p <= MakeCheck() then 1 else 0)
  {
    var body := [ConfigureLine(c), MakeClean, MakeCheck()];
    CountThree(ConfigureLine(c), MakeClean, MakeCheck(), p);
    if DarwinUnsupported(c) {
      CountPrefixedAppend([GuardOpen] + body, [GuardClose], p);
      CountPrefixedAppend([GuardOpen], body, p);
      CountOne(GuardOpen, p);
      CountOne(GuardClose, p);
    }
  }

  /**
   * Each block holds one configure line, and one guard-opening and one
   * guard-closing line exactly when it is emitted and Darwin-unsupported;
   * a skipped combination prints nothing.
   */
  lemma BlockCounts(cat: seq<string>, c: Combination)
    ensures Skipped(cat, c) ==> Block(cat, c) == []
    ensures CountPrefixed(Block(cat, c), ConfigurePrefix) == (if Skipped(cat, c) then 0 else 1)
    ensures CountPrefixed(Block(cat, c), GuardOpen)
         == (if !Skipped(cat, c) && DarwinUnsupported(c) then 1 else 0)
    ensures CountPrefixed(Block(cat, c), GuardClose)
         == (if !Skipped(cat, c) && DarwinUnsupported(c) then 1 else 0)
  {
    if !Skipped(cat, c) {
      LineKinds(c);
      BlockCount(cat, c, ConfigurePrefix);
      BlockCount(cat, c, GuardOpen);
      BlockCount(cat, c, GuardClose);
    }
  }

  /**
   * In the printed lines of any run of combinations there is one configure
   * line per combination not skipped, and the guard lines open and close
   * once per emitted Darwin-unsupported combination.
   */
  lemma {:induction false} RenderCounts(cat: seq<string>, cs: seq<Combination>)
    ensures CountPrefixed(Render(cat, cs), ConfigurePrefix) == Emitted(cat, cs)
    ensures CountPrefixed(Render(cat, cs), GuardOpen) == Guarded(cat, cs)
    ensures CountPrefixed(Render(cat, cs), GuardClose) == Guarded(cat, cs)
  {
    if cs != [] {
      var init, last := cs[..|cs| - 1], cs[|cs| - 1];
      RenderCounts(cat, init);
      BlockCounts(cat, last);
      CountPrefixedAppend(Render(cat, init), Block(cat, last), ConfigurePrefix);
      CountPrefixedAppend(Render(cat, init), Block(cat, last), GuardOpen);
      CountPrefixedAppend(Render(cat, init), Block(cat, last), GuardClose);
    }
  }

  /** The script opens with the preamble, which holds no configure line. */
  lemma ScriptPreamble(body: seq<string>)
    ensures (Preamble + body)[..3] == ["set -e", "autoconf", "unamestr=`uname`"]
    ensures CountPrefixed(Preamble + body, ConfigurePrefix) == CountPrefixed(body, ConfigurePrefix)
  {
    assert (Preamble + body)[..3] == Preamble;
    CountPrefixedAppend(Preamble, body, ConfigurePrefix);
    CountThree("set -e", "autoconf", "unamestr=`uname`", ConfigurePrefix);
    NotPrefix(ConfigurePrefix, "set -e");
    NotPrefix(ConfigurePrefix, "autoconf");
    NotPrefix(ConfigurePrefix, "unamestr=`uname`");
  }

  /** The preamble comes first, then one configure line per emitted combination. */
  lemma ScriptCounts(pairs: seq<(string, string)>, compilerOpts: seq<string>,
                     configOpts: seq<string>, mallocConfOpts: seq<string>)
    ensures Script(pairs, compilerOpts, configOpts, mallocConfOpts)[..3] == ["set -e", "autoconf", "unamestr=`uname`"]
    ensures CountPrefixed(Script(pairs, compilerOpts, configOpts, mallocConfOpts), ConfigurePrefix)
         == Emitted(compilerOpts,
              AllCombinations(pairs, Subsets(compilerOpts), Subsets(configOpts), Subsets(mallocConfOpts)))
  {
    var cs := AllCombinations(pairs, Subsets(compilerOpts), Subsets(configOpts), Subsets(mallocConfOpts));
    assert Script(pairs, compilerOpts, configOpts, mallocConfOpts) == Preamble + Render(compilerOpts, cs);
    RenderCounts(compilerOpts, cs);
    ScriptPreamble(Render(compilerOpts, cs));
  }

  /** The number of configure-option subsets the skip rule keeps for compiler `cc`. */
  function Kept(cat: seq<string>, cc: string, configs: seq<seq<string>>): nat
  {
    if |configs| == 0 then 0
    else Kept(cat, cc, configs[..|configs| - 1]) + (if SkipRule(cat, cc, configs[|configs| - 1]) then 0 else 1)
  }

  /** The number of subsets that do not contain `x`. */
  function Without(subsets: seq<seq<string>>, x: string): nat
  {
    if |subsets| == 0 then 0
    else Without(subsets[..|subsets| - 1], x) + (if x in subsets[|subsets| - 1] then 0 else 1)
  }

  lemma {:induction false} KeptCount(cat: seq<string>, cc: string, configs: seq<seq<string>>)
    ensures !(cc == "clang" && "-m32" in cat) ==> Kept(cat, cc, configs) == |configs|
    ensures cc == "clang" && "-m32" in cat ==> Kept(cat, cc, configs) == Without(configs, "--enable-prof")
  {
    if configs != [] {
      KeptCount(cat, cc, configs[..|configs| - 1]);
    }
  }

  lemma {:induction false} RowEmitted(cat: seq<string>, pair: (string, string), copts: seq<string>,
                                      config: seq<string>, R: seq<seq<string>>)
    ensures Emitted(cat, Row(pair, copts, config, R)) == if SkipRule(cat, pair.0, config) then 0 else |R|
  {
    if R != [] {
      var R' := R[..|R| - 1];
      assert Row(pair, copts, config, R)[..|R| - 1] == Row(pair, copts, config, R');
      RowEmitted(cat, pair, copts, config, R');
    }
  }

  lemma {:induction false} PlaneEmitted(cat: seq<string>, pair: (string, string), copts: seq<string>,
                                        Q: seq<seq<string>>, R: seq<seq<string>>)
    ensures Emitted(cat, Concat(Rows(pair, copts, Q, R))) == |R| * Kept(cat, pair.0, Q)
  {
    if Q != [] {
      var Q' := Q[..|Q| - 1];
      var rows := Rows(pair, copts, Q, R);
      assert rows[..|Q| - 1] == Rows(pair, copts, Q', R);
      PlaneEmitted(cat, pair, copts, Q', R);
      EmittedAppend(cat, Concat(rows[..|Q| - 1]), rows[|Q| - 1]);
      RowEmitted(cat, pair, copts, Q[|Q| - 1], R);
      var kept := Kept(cat, pair.0, Q');
      if SkipRule(cat, pair.0, Q[|Q| - 1]) {
        assert Kept(cat, pair.0, Q) == kept;
      } else {
        assert Kept(cat, pair.0, Q) == kept + 1;
        Arith.MulSuccessor(kept, |R|);
      }
    }
  }

  lemma {:induction false} CubeEmitted(cat: seq<string>, pair: (string, string),
                                       P: seq<seq<string>>, Q: seq<seq<string>>, R: seq<seq<string>>)
    ensures Emitted(cat, Concat(Planes(pair, P, Q, R))) == |P| * (|R| * Kept(cat, pair.0, Q))
  {
    if P != [] {
      var P' := P[..|P| - 1];
      var planes := Planes(pair, P, Q, R);
      assert planes[..|P| - 1] == Planes(pair, P', Q, R);
      CubeEmitted(cat, pair, P', Q, R);
      EmittedAppend(cat, Concat(planes[..|P| - 1]), planes[|P| - 1]);
      PlaneEmitted(cat, pair, P[|P| - 1], Q, R);
      Arith.MulSuccessor(|P'|, |R| * Kept(cat, pair.0, Q));
    }
  }

  // ---------------------------------------------------------------------
  // The catalogs as shipped: 128 gcc blocks and 64 clang blocks
  // ---------------------------------------------------------------------

  /** The number of index subsets that leave out position p. */
  function Lacking(ts: seq<seq<nat>>, p: nat): nat
  {
    if |ts| == 0 then 0 else Lacking(ts[..|ts| - 1], p) + (if p in ts[|ts| - 1] then 0 else 1)
  }

  lemma {:induction false} LackingAppend(a: seq<seq<nat>>, b: seq<seq<nat>>, p: nat)
    ensures Lacking(a + b, p) == Lacking(a, p) + Lacking(b, p)
    decreases |b|
  {
    if b == [] {
      assert a + b == a;
    } else {
      var b' := b[..|b| - 1];
      assert (a + b)[..|a + b| - 1] == a + b';
      assert (a + b)[|a + b| - 1] == b[|b| - 1];
      LackingAppend(a, b', p);
    }
  }

  /** Prefixing every tuple with lo != p keeps which tuples lack p; prefixing with p makes them all contain it. */
  lemma {:induction false} LackingCons(lo: nat, ts: seq<seq<nat>>, p: nat)
    ensures Lacking(Cons(lo, ts), p) == if lo == p then 0 else Lacking(ts, p)
  {
    if ts != [] {
      var ts' := ts[..|ts| - 1];
      assert Cons(lo, ts)[..|ts| - 1] == Cons(lo, ts');
      LackingCons(lo, ts', p);
      assert p in [lo] + ts[|ts| - 1] <==> p == lo || p in ts[|ts| - 1];
    }
  }

  /** Tuples over positions above p all lack p. */
  lemma LackingAbove(lo: nat, n: nat, k: nat, p: nat)
    requires p < lo
    ensures Lacking(Combos(lo, n, k), p) == |Combos(lo, n, k)|
  {
    CombosShape(lo, n, k);
    LackingAll(Combos(lo, n, k), p, lo, n);
  }

  lemma {:induction false} LackingAll(ts: seq<seq<nat>>, p: nat, lo: nat, n: nat)
    requires p < lo
    requires forall i :: 0 <= i < |ts| ==> InRange(ts[i], lo, n)
    ensures Lacking(ts, p) == |ts|
  {
    if ts != [] {
      var ts' := ts[..|ts| - 1];
      LackingAll(ts', p, lo, n);
      var t := ts[|ts| - 1];
      assert InRange(t, lo, n);
      assert forall j :: 0 <= j < |t| ==> t[j] != p;
    }
  }

  /**
   * The k-subsets of [lo, n) that lack a position p in [lo, n) are as many
   * as all k-subsets of a range one shorter: C(n - lo - 1, k).
   */
  lemma {:induction false} LackingCombos(lo: nat, n: nat, k: nat, p: nat)
    requires lo <= p < n
    ensures Lacking(Combos(lo, n, k), p) == Binom(n - lo - 1, k)
    decreases n - lo
  {
    if k == 0 {
      assert Combos(lo, n, 0) == [[]];
      var single: seq<seq<nat>> := [[]];
      assert single[..0] == [];
    } else {
      var c1, c2 := Combos(lo + 1, n, k - 1), Combos(lo + 1, n, k);
      assert Combos(lo, n, k) == Cons(lo, c1) + c2;
      LackingAppend(Cons(lo, c1), c2, p);
      LackingCons(lo, c1, p);
      if lo == p {
        LackingAbove(lo + 1, n, k, p);
        CombosCount(lo + 1, n, k);
      } else {
        LackingCombos(lo + 1, n, k - 1, p);
        LackingCombos(lo + 1, n, k, p);
        BinomPascal(n - lo - 1, k);
      }
    }
  }

  lemma BinomPascal(n: nat, k: nat)
    requires n > 0 && k > 0
    ensures Binom(n, k) == Binom(n - 1, k - 1) + Binom(n - 1, k)
  {
  }

  /** The index subsets of [0, n) with sizes below m that lack p number C(n - 1, 0) + ... + C(n - 1, m - 1). */
  lemma {:induction false} LackingUpTo(n: nat, m: nat, p: nat)
    requires p < n
    ensures Lacking(IndexSubsetsUpTo(n, m), p) == BinomSum(n - 1, m)
  {
    if m > 0 {
      LackingUpTo(n, m - 1, p);
      LackingNextSize(n, m - 1, p);
    }
  }

  lemma LackingNextSize(n: nat, k: nat, p: nat)
    requires p < n
    requires Lacking(IndexSubsetsUpTo(n, k), p) == BinomSum(n - 1, k)
    ensures Lacking(IndexSubsetsUpTo(n, k + 1), p) == BinomSum(n - 1, k + 1)
  {
    var below, next := IndexSubsetsUpTo(n, k), Combos(0, n, k);
    UpToStep(n, k);
    LackingAppend(below, next, p);
    LackingCombos(0, n, k, p);
    BinomSumNext(n - 1, k);
  }

  lemma BinomSumNext(n: nat, k: nat)
    ensures BinomSum(n, k + 1) == BinomSum(n, k) + Binom(n, k)
  {
  }

  lemma UpToStep(n: nat, k: nat)
    ensures IndexSubsetsUpTo(n, k + 1) == IndexSubsetsUpTo(n, k) + Combos(0, n, k)
  {
  }

  /** Exactly half of the subsets of a nonempty range lack any one position of it. */
  lemma LackingHalf(n: nat, p: nat)
    requires p < n
    ensures 2 * Lacking(IndexSubsets(n), p) == |IndexSubsets(n)|
  {
    LackingUpTo(n, n + 1, p);
    BinomBeyond(n - 1, n);
    BinomSumAll(n - 1);
    BinomSumAll(n);
  }

  /** When x occurs in the catalog only at position p, a picked subset contains x iff its tuple contains p. */
  lemma {:induction false} WithoutPick(items: seq<string>, ts: seq<seq<nat>>, x: string, p: nat)
    requires AllInRange(ts, |items|)
    requires p < |items| && items[p] == x
    requires forall q :: 0 <= q < |items| && q != p ==> items[q] != x
    ensures Without(PickAll(items, ts), x) == Lacking(ts, p)
  {
    if ts != [] {
      var ts' := ts[..|ts| - 1];
      assert PickAll(items, ts)[..|ts| - 1] == PickAll(items, ts');
      WithoutPick(items, ts', x, p);
      var t := ts[|ts| - 1];
      var picked := Pick(items, t);
      assert x in picked <==> p in t by {
        if x in picked {
          var j :| 0 <= j < |picked| && picked[j] == x;
          assert items[t[j]] == x;
        }
        if p in t {
          var j :| 0 <= j < |t| && t[j] == p;
          assert picked[j] == x;
        }
      }
    }
  }

  /** Exactly half of the subsets powerset yields leave out a catalog entry that occurs once. */
  lemma HalfWithout(items: seq<string>, x: string, p: nat)
    requires p < |items| && items[p] == x
    requires forall q :: 0 <= q < |items| && q != p ==> items[q] != x
    ensures 2 * Without(Subsets(items), x) == |Subsets(items)|
  {
    IndexSubsetsShape(|items|, |items| + 1);
    WithoutPick(items, IndexSubsets(|items|), x, p);
    LackingHalf(|items|, p);
  }

  /** --enable-prof is entry 1 of the four-entry configure-option catalog, and no other entry. */
  lemma ProfOnceInConfigCatalog()
    ensures |PossibleConfigOpts| == 4 && PossibleConfigOpts[1] == "--enable-prof"
    ensures forall q :: 0 <= q < |PossibleConfigOpts| && q != 1 ==> PossibleConfigOpts[q] != "--enable-prof"
  {
    var items := PossibleConfigOpts;
    assert items[0][2] == 'e' && items[0][3] == 'n' && items[0][9] == 'd';
    assert items[2][2] == 'd';
    assert items[3][2] == 'w';
    assert items[1][9] == 'p';
  }

  /** Summed over the compiler pairs: the blocks each pair's cube prints. */
  function PairsKept(cat: seq<string>, pairs: seq<(string, string)>,
                     P: seq<seq<string>>, Q: seq<seq<string>>, R: seq<seq<string>>): nat
  {
    if |pairs| == 0 then 0
    else PairsKept(cat, pairs[..|pairs| - 1], P, Q, R) + |P| * (|R| * Kept(cat, pairs[|pairs| - 1].0, Q))
  }

  /** Every compiler pair prints |P| * |R| blocks per configure subset the skip rule keeps for it. */
  lemma {:induction false} MatrixEmitted(cat: seq<string>, pairs: seq<(string, string)>,
                                         P: seq<seq<string>>, Q: seq<seq<string>>, R: seq<seq<string>>)
    ensures Emitted(cat, AllCombinations(pairs, P, Q, R)) == PairsKept(cat, pairs, P, Q, R)
  {
    if pairs != [] {
      var m := |pairs| - 1;
      var cubes := Cubes(pairs, P, Q, R);
      assert cubes[..m] == Cubes(pairs[..m], P, Q, R);
      EmittedAppend(cat, Concat(cubes[..m]), cubes[m]);
      CubeEmitted(cat, pairs[m], P, Q, R);
      MatrixEmitted(cat, pairs[..m], P, Q, R);
    }
  }

  /** With two pairs, gcc then clang, and a catalog holding -m32. */
  lemma GccThenClang(cat: seq<string>, pairs: seq<(string, string)>,
                     P: seq<seq<string>>, Q: seq<seq<string>>, R: seq<seq<string>>)
    requires |pairs| == 2 && pairs[0].0 == "gcc" && pairs[1].0 == "clang" && "-m32" in cat
    ensures Emitted(cat, AllCombinations(pairs, P, Q, R))
         == |P| * (|R| * |Q|) + |P| * (|R| * Without(Q, "--enable-prof"))
  {
    MatrixEmitted(cat, pairs, P, Q, R);
    KeptCount(cat, "gcc", Q);
    KeptCount(cat, "clang", Q);
    var first := pairs[..1];
    assert first[..0] == [] && first[0] == pairs[0];
    assert PairsKept(cat, first, P, Q, R) == |P| * (|R| * Kept(cat, "gcc", Q));
    assert pairs[..|pairs| - 1] == first;
    assert PairsKept(cat, pairs, P, Q, R) == PairsKept(cat, first, P, Q, R) + |P| * (|R| * Kept(cat, "clang", Q));
  }

  /**
   * Catalogs shaped like the shipped ones (gcc then clang; the compiler
   * catalog is just -m32; four configure options, --enable-prof among them
   * once; two malloc-conf options) give 2 * 2 * 16 * 4 = 256 combinations,
   * of which 192 print: all 128 with gcc and the 64 clang ones without
   * --enable-prof.
   */
  lemma MatrixCount(pairs: seq<(string, string)>, cat: seq<string>, config: seq<string>,
                    conf: seq<string>, p: nat)
    requires |pairs| == 2 && pairs[0].0 == "gcc" && pairs[1].0 == "clang"
    requires |cat| == 1 && cat[0] == "-m32"
    requires |config| == 4 && p < 4 && config[p] == "--enable-prof"
    requires forall q :: 0 <= q < |config| && q != p ==> config[q] != "--enable-prof"
    requires |conf| == 2
    ensures |AllCombinations(pairs, Subsets(cat), Subsets(config), Subsets(conf))| == 256
    ensures Emitted(cat, AllCombinations(pairs, Subsets(cat), Subsets(config), Subsets(conf))) == 192
  {
    var P, Q, R := Subsets(cat), Subsets(config), Subsets(conf);
    CatalogSizes(cat, config, conf, p);
    AllLength(pairs, P, Q, R);
    assert "-m32" in cat by {
      assert cat[0] == "-m32";
    }
    GccThenClang(cat, pairs, P, Q, R);
    MatrixArithmetic(|pairs|, |P|, |Q|, |R|, Without(Q, "--enable-prof"));
  }

  /** The subset counts of catalogs of one, four and two options, and the configure subsets without --enable-prof. */
  lemma CatalogSizes(cat: seq<string>, config: seq<string>, conf: seq<string>, p: nat)
    requires |cat| == 1
    requires |config| == 4 && p < 4 && config[p] == "--enable-prof"
    requires forall q :: 0 <= q < |config| && q != p ==> config[q] != "--enable-prof"
    requires |conf| == 2
    ensures |Subsets(cat)| == 2 && |Subsets(config)| == 16 && |Subsets(conf)| == 4
    ensures Without(Subsets(config), "--enable-prof") == 8
  {
    PowersetCount(cat);
    PowersetCount(config);
    PowersetCount(conf);
    assert Arith.Pow2(1) == 2 && Arith.Pow2(2) == 4 && Arith.Pow2(4) == 16;
    HalfWithout(config, "--enable-prof", p);
  }

  lemma MatrixArithmetic(n: nat, a: nat, b: nat, c: nat, w: nat)
    requires n == 2 && a == 2 && b == 16 && c == 4 && w == 8
    ensures n * (a * (b * c)) == 256
    ensures a * (c * b) + a * (c * w) == 192
  {
  }

  /** The shipped catalogs: 256 combinations, 192 printed. */
  lemma ShippedMatrix()
    ensures |AllCombinations(PossibleCompilers, Subsets(PossibleCompilerOpts),
                             Subsets(PossibleConfigOpts), Subsets(PossibleMallocConfOpts))| == 256
    ensures Emitted(PossibleCompilerOpts,
                    AllCombinations(PossibleCompilers, Subsets(PossibleCompilerOpts),
                                    Subsets(PossibleConfigOpts), Subsets(PossibleMallocConfOpts))) == 192
  {
    ProfOnceInConfigCatalog();
    MatrixCount(PossibleCompilers, PossibleCompilerOpts, PossibleConfigOpts, PossibleMallocConfOpts, 1);
  }

  /** ... and so the shipped script holds 192 configure lines. */
  lemma ShippedScript()
    ensures CountPrefixed(Script(PossibleCompilers, PossibleCompilerOpts, PossibleConfigOpts,
                                 PossibleMallocConfOpts), ConfigurePrefix) == 192
  {
    ShippedMatrix();
    ScriptCounts(PossibleCompilers, PossibleCompilerOpts, PossibleConfigOpts, PossibleMallocConfOpts);
  }

  /** The configure line of (gcc, {}, {--enable-debug}, {tcache:false}), followed by make clean and make check, unguarded. */
  lemma ExampleBlock()
    ensures Block(PossibleCompilerOpts, Combination("gcc", "g++", [], ["--enable-debug"], ["tcache:false"]))
         == ["EXTRA_CFLAGS=-Werror " + "EXTRA_CXXFLAGS=-Werror " + "./configure "
             + ("CC=\"gcc \" " + "CXX=\"g++ \" " + "--enable-debug" + " --with-malloc-conf=tcache:false"),
             "make clean", "make -j32 check"]
  {
    MakeCheckLine();
    ExampleConfigureLine();
  }

  lemma ExampleConfigureLine()
    ensures ConfigureLine(Combination("gcc", "g++", [], ["--enable-debug"], ["tcache:false"]))
         == ConfigurePrefix + ("CC=\"gcc \" " + "CXX=\"g++ \" " + "--enable-debug" + " --with-malloc-conf=tcache:false")
  {
    var c := Combination("gcc", "g++", [], ["--enable-debug"], ["tcache:false"]);
    assert Join(c.compilerOpts, " ") == "";
    assert Join(c.configOpts, " ") == "--enable-debug";
    assert MallocConfSuffix(c.mallocConfOpts) == " --with-malloc-conf=tcache:false";
    var cc := "CC=\"" + "gcc" + " " + "" + "\" ";
    assert cc == "CC=\"gcc \" ";
    var x0 := cc + "CXX=\"";
    var x1 := x0 + "g++";
    var x2 := x1 + " ";
    var x3 := x2 + "";
    var x4 := x3 + "\" ";
    AppendAssoc(cc, "CXX=\"", "g++");
    AppendAssoc(cc, "CXX=\"" + "g++", " ");
    AppendAssoc(cc, "CXX=\"" + "g++" + " ", "");
    AppendAssoc(cc, "CXX=\"" + "g++" + " " + "", "\" ");
    assert "CXX=\"" + "g++" + " " + "" + "\" " == "CXX=\"g++ \" ";
    assert x4 == cc + "CXX=\"g++ \" ";
  }

  /** A clang combination with --enable-prof prints nothing, whatever the other axes hold. */
  lemma ClangProfSkipped(copts: seq<string>, config: seq<string>, conf: seq<string>)
    requires "--enable-prof" in config
    ensures Block(PossibleCompilerOpts, Combination("clang", "clang++", copts, config, conf)) == []
  {
  }

  /** The malloc-conf suffix is present exactly when the malloc-conf subset is non-empty. */
  lemma MallocConfSuffixShape(conf: seq<string>)
    ensures |conf| == 0 <==> MallocConfSuffix(conf) == ""
    ensures |conf| > 0 ==> " --with-malloc-conf=" <= MallocConfSuffix(conf)
  {
  }
}
