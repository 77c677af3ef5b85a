/** The tables themselves: filled by repeated doubling and read back by both multipliers
    (gf/mod.rs build_log_table, build_exp_table, gf_mul; arm_sve.rs gf_mul_portable). */
module Gf256Tables {
  import opened Gf256Powers
  import opened Gf256

  // Doubling in sixteen bits, reduced by 0x11D when the ninth bit appears.
  lemma WideDouble(x: bv8)
    ensures var y := (x as bv16) << 1;
      (if y >= 256 then y ^ 0x11D else y) == Double(x) as bv16
  {
  }

  function Entry(log: seq<nat>, a: bv8): nat
    requires |log| == 256
  {
    log[a as int]
  }

  ghost predicate IsLogTable(log: seq<nat>) {
    |log| == 256 && forall a: bv8 | a != 0 :: Entry(log, a) == Log(a)
  }

  ghost predicate IsExpTable(exp: seq<bv8>) {
    |exp| == 512 && forall i | 0 <= i < 511 :: exp[i] == Alpha(i)
  }

  lemma AlphaFresh(i: nat)
    requires i < 255
    ensures 0 < Alpha(i) as int && (Alpha(i) as bv16) as int == Alpha(i) as int
    ensures forall j | 0 <= j < i :: Alpha(j) as int != Alpha(i) as int
  {
    AlphaNonzero(i);
    forall j | 0 <= j < i ensures Alpha(j) as int != Alpha(i) as int {
      AlphaInjective(j, i);
    }
  }

  /** The logarithm table. */
  method BuildLogTable() returns (log: seq<nat>)
    ensures IsLogTable(log) && log[0] == 0
  {
    var table := new nat[256](_ => 0);
    var x: bv16 := 1;
    for i := 0 to 255
      invariant x == Alpha(i) as bv16
      invariant table[0] == 0
      invariant forall j | 0 <= j < i :: table[Alpha(j) as int] == j
    {
      AlphaFresh(i);
      table[x as int] := i;
      WideDouble(Alpha(i));
      x := x << 1;
      if x >= 256 {
        x := x ^ 0x11D;
      }
    }
    log := table[..];
    forall a: bv8 | a != 0 ensures Entry(log, a) == Log(a) {
      assert Alpha(Log(a)) == a;
    }
  }

  /** The exponential table, long enough that a sum of two logarithms needs no reduction. */
  method BuildExpTable() returns (exp: seq<bv8>)
    ensures IsExpTable(exp)
  {
    var table := new bv8[512](_ => 0);
    var x: bv16 := 1;
    for i := 0 to 511
      invariant x == Alpha(i) as bv16
      invariant forall j | 0 <= j < i :: table[j] == Alpha(j)
    {
      table[i] := x as bv8;
      WideDouble(Alpha(i));
      x := x << 1;
      if x >= 256 {
        x := x ^ 0x11D;
      }
    }
    AlphaAtDivisors();
    table[255] := table[0];
    exp := table[..];
  }

  /** The index gf_div reads: the difference of the logarithms, moved up when negative. */
  function DividedIndex(a: nat, b: nat): nat
    requires a < 255 && b < 255
  {
    if a < b then a + 255 - b else a - b
  }

  /** Reading the tables multiplies and inverts, with or without reducing the sum, and dividing one
      by an element inverts it. */
  lemma TablesMultiply(log: seq<nat>, exp: seq<bv8>, a: bv8, b: bv8)
    requires IsLogTable(log) && IsExpTable(exp)
    requires a != 0 && b != 0
    ensures Entry(log, a) < 255 && Entry(log, b) < 255
    ensures exp[Entry(log, a) + Entry(log, b)] == GfMul(a, b)
    ensures exp[(Entry(log, a) + Entry(log, b)) % 255] == GfMul(a, b)
    ensures exp[(255 - Entry(log, a)) % 255] == GfInv(a)
    ensures Entry(log, 1) == 0 && exp[DividedIndex(0, Entry(log, a))] == GfInv(a)
  {
    LogEntry(log, a);
    LogEntry(log, 1);
    LogAlpha(0);
    LogEntry(log, b);
    MulByLogs(exp, a, b, Log(a), Log(b));
  }

  lemma LogEntry(log: seq<nat>, a: bv8)
    requires IsLogTable(log) && a != 0
    ensures Entry(log, a) == Log(a) < 255
  {
  }

  lemma MulByLogs(exp: seq<bv8>, a: bv8, b: bv8, i: nat, j: nat)
    requires IsExpTable(exp) && a != 0 && b != 0 && i == Log(a) && j == Log(b)
    ensures exp[i + j] == exp[(i + j) % 255] == GfMul(a, b)
    ensures exp[(255 - i) % 255] == GfInv(a)
  {
    AlphaWraps(i + j);
  }
}
