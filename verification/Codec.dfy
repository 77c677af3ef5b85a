/** Cauchy Reed-Solomon coding: the generator [I ; Cauchy], which selections of its
    rows can be inverted, and the scalar encoder and the decoder
    (arm_sve.rs, isal.rs, cauchy.rs). */
module Codec {
  import opened Common
  import opened Fields
  import opened Cauchy
  import opened GaussJordan

  type Byte = bv8
  type Shard = seq<Byte>

  // ---- the generator ----

  /** The node of row or column i, counted from one and cut to a byte. */
  function Node(i: nat): Byte {
    ((i + 1) % 256) as Byte
  }

  lemma NodesDistinct(i: nat, j: nat)
    requires i < j < 256
    ensures Node(i) != Node(j)
  {
    var a, b := (i + 1) % 256, (j + 1) % 256;
    assert a != b;
    assert (a as Byte) as int == a && (b as Byte) as int == b;
  }

  function Nodes(k: nat): (xs: Row<Byte>)
    ensures |xs| == k
  {
    seq(k, (j: nat) => Node(j))
  }

  /** Row i of the generator: identity above, Cauchy below. */
  function GeneratorRow(F: Field<Byte>, k: nat, i: nat): (r: Row<Byte>)
    ensures |r| == k
  {
    if i < k then UnitRow(F, i, k) else CauchyRow(F, Nodes(k), Node(i))
  }

  function SelectedRows(F: Field<Byte>, k: nat, rows: seq<nat>): (m: Matrix<Byte>)
    ensures Rectangular(m, |rows|, k)
  {
    seq(|rows|, i requires 0 <= i < |rows| => GeneratorRow(F, k, rows[i]))
  }

  ghost predicate Selection(rows: seq<nat>, k: nat, m: nat) {
    |rows| == k && Distinct(rows) && forall i | 0 <= i < k :: rows[i] < k + m
  }

  // ---- counting the selected rows ----

  ghost function Low(rows: seq<nat>, k: nat): set<nat> {
    set r | r in rows && r < k
  }

  ghost function High(rows: seq<nat>, k: nat): seq<nat> {
    if rows == [] then []
    else
      var rest, last := High(rows[..|rows| - 1], k), rows[|rows| - 1];
      if last < k then rest else rest + [last]
  }

  lemma {:induction false} HighIsFilter(rows: seq<nat>, k: nat)
    requires Distinct(rows)
    ensures forall r :: r in High(rows, k) <==> r in rows && k <= r
    ensures Distinct(High(rows, k))
    ensures |Low(rows, k)| + |High(rows, k)| == |rows|
  {
    if rows != [] {
      var rest, last := rows[..|rows| - 1], rows[|rows| - 1];
      HighIsFilter(rest, k);
      assert rows == rest + [last];
      assert last !in rest;
      assert Low(rows, k) == if last < k then Low(rest, k) + {last} else Low(rest, k);
    }
  }

  lemma {:induction false} SupportBound(F: Field<Byte>, v: Row<Byte>, n: nat, zeros: set<nat>)
    requires n <= |v|
    requires forall z | z in zeros :: z < n && v[z] == F.zero
    ensures Support(F, v, n) + |zeros| <= n
  {
    if n == 0 {
      assert zeros == {};
    } else {
      SupportBound(F, v, n - 1, zeros - {n - 1});
    }
  }

  // ---- any k rows can be inverted, up to 256 shards ----

  lemma KilledRows(F: Field<Byte>, k: nat, rows: seq<nat>, v: Row<Byte>)
    requires Laws(F) && |v| == k && Kills(F, SelectedRows(F, k, rows), v)
    ensures forall r | r in rows && r < k :: v[r] == F.zero
    ensures forall r | r in rows && k <= r :: Dot(F, CauchyRow(F, Nodes(k), Node(r)), v, k) == F.zero
  {
    var m := SelectedRows(F, k, rows);
    forall i | 0 <= i < |rows|
      ensures if rows[i] < k then v[rows[i]] == F.zero
              else Dot(F, CauchyRow(F, Nodes(k), Node(rows[i])), v, k) == F.zero
    {
      assert Dot(F, m[i], v, k) == F.zero;
      if rows[i] < k {
        DotUnit(F, m[i], rows[i], v, k);
      }
    }
  }

  /** Every choice of k distinct generator rows is nonsingular while the bytes do not wrap. */
  lemma AnyRowsNonsingular(F: Field<Byte>, k: nat, m: nat, rows: seq<nat>)
    requires Laws(F) && k + m <= 256 && Selection(rows, k, m)
    ensures Nonsingular(F, SelectedRows(F, k, rows))
  {
    forall v: Row<Byte> | |v| == k && Kills(F, SelectedRows(F, k, rows), v) ensures IsZero(F, v) {
      KilledRows(F, k, rows, v);
      HighIsFilter(rows, k);
      SupportBound(F, v, k, Low(rows, k));
      var high := High(rows, k);
      var ys := seq(|high|, i requires 0 <= i < |high| => Node(high[i]));
      forall i, j | 0 <= i < j < |ys| ensures ys[i] != ys[j] {
        HighNodesDistinct(high, k, m, i, j);
      }
      forall j, i | 0 <= j < k && 0 <= i < |ys| ensures Nodes(k)[j] != ys[i] {
        assert high[i] in high;
        NodesDistinct(j, high[i]);
      }
      forall i, j | 0 <= i < j < k ensures Nodes(k)[i] != Nodes(k)[j] {
        NodesDistinct(i, j);
      }
      forall i | 0 <= i < |ys| ensures Dot(F, CauchyRow(F, Nodes(k), ys[i]), v, k) == F.zero {
        assert high[i] in high;
      }
      OnlyZeroSolution(F, v, Nodes(k), ys, |ys|, k);
    }
  }

  lemma HighNodesDistinct(high: seq<nat>, k: nat, m: nat, i: nat, j: nat)
    requires k + m <= 256 && Distinct(high) && forall r | r in high :: r < k + m
    requires i < j < |high|
    ensures Node(high[i]) != Node(high[j])
  {
    assert high[i] in high && high[j] in high;
    if high[i] < high[j] {
      NodesDistinct(high[i], high[j]);
    } else {
      NodesDistinct(high[j], high[i]);
    }
  }

  /** The selection that fails once a parity node wraps round to the node of column 0. */
  function WrappedRows(k: nat): (rows: seq<nat>)
    requires 1 <= k
    ensures |rows| == k
  {
    seq(k - 1, i => i + 1) + [256]
  }

  lemma WrappedRowsSingular(F: Field<Byte>, k: nat, m: nat)
    requires Laws(F) && 1 <= k <= 255 && 256 < k + m
    ensures Selection(WrappedRows(k), k, m)
    ensures !Nonsingular(F, SelectedRows(F, k, WrappedRows(k)))
  {
    var rows, sub, v := WrappedRows(k), SelectedRows(F, k, WrappedRows(k)), UnitRow(F, 0, k);
    assert forall i | 0 <= i < k - 1 :: rows[i] == i + 1;
    assert rows[k - 1] == 256;
    assert Node(256) == Node(0);
    forall i | 0 <= i < k ensures Dot(F, sub[i], v, k) == F.zero {
      if i == k - 1 {
        AddUnit(F, Node(0));
        assert sub[i][0] == F.zero;
      }
      DotZero(F, sub[i], v, k);
    }
    assert v[0] == F.one && !IsZero(F, v);
  }

  /** Where zero inverts to zero, every choice of k generator rows is invertible precisely when
      there are at most 256 shards. */
  lemma RecoverableExactly(F: Field<Byte>, k: nat, m: nat)
    requires Laws(F) && k <= 255 && m <= 255
    ensures (forall rows | Selection(rows, k, m) :: Nonsingular(F, SelectedRows(F, k, rows)))
       <==> (k == 0 || k + m <= 256)
  {
    if k == 0 {
    } else if k + m <= 256 {
      forall rows | Selection(rows, k, m) ensures Nonsingular(F, SelectedRows(F, k, rows)) {
        AnyRowsNonsingular(F, k, m, rows);
      }
    } else {
      WrappedRowsSingular(F, k, m);
    }
  }

  // ---- code words ----

  ghost predicate Shards(data: seq<Shard>, k: nat, size: nat) {
    |data| == k && forall i | 0 <= i < k :: |data[i]| == size
  }

  /** Byte b of every data shard. */
  function Column(data: seq<Shard>, b: nat): (c: Row<Byte>)
    requires forall i | 0 <= i < |data| :: b < |data[i]|
    ensures |c| == |data|
  {
    seq(|data|, i requires 0 <= i < |data| => data[i][b])
  }

  /** The sum of the first n coefficients times byte b of their shards. */
  function Combine(F: Field<Byte>, coeffs: Row<Byte>, data: seq<Shard>, b: nat, n: nat): Byte
    requires n <= |coeffs| && n <= |data| && forall i | 0 <= i < n :: b < |data[i]|
  {
    if n == 0 then F.zero else F.add(Combine(F, coeffs, data, b, n - 1), F.mul(coeffs[n - 1], data[n - 1][b]))
  }

  lemma {:induction false} CombineIsDot(F: Field<Byte>, coeffs: Row<Byte>, data: seq<Shard>, b: nat, n: nat)
    requires n <= |coeffs| && n <= |data| && forall i | 0 <= i < |data| :: b < |data[i]|
    ensures Combine(F, coeffs, data, b, n) == Dot(F, coeffs, Column(data, b), n)
  {
    if n > 0 {
      CombineIsDot(F, coeffs, data, b, n - 1);
    }
  }

  /** Byte b of the i-th shard of the code word: the generator row times the column. */
  function CodeByte(F: Field<Byte>, data: seq<Shard>, size: nat, i: nat, b: nat): Byte
    requires Shards(data, |data|, size) && b < size
  {
    Combine(F, GeneratorRow(F, |data|, i), data, b, |data|)
  }

  function CodeShard(F: Field<Byte>, data: seq<Shard>, size: nat, i: nat): (s: Shard)
    requires Shards(data, |data|, size)
    ensures |s| == size
    ensures forall b | 0 <= b < size :: s[b] == CodeByte(F, data, size, i, b)
  {
    seq(size, b requires 0 <= b < size => CodeByte(F, data, size, i, b))
  }

  // The code is systematic: the first k shards are the data.
  lemma Systematic(F: Field<Byte>, data: seq<Shard>, size: nat, i: nat)
    requires Laws(F) && Shards(data, |data|, size) && i < |data|
    ensures CodeShard(F, data, size, i) == data[i]
  {
    forall b | 0 <= b < size ensures CodeShard(F, data, size, i)[b] == data[i][b] {
      CombineIsDot(F, GeneratorRow(F, |data|, i), data, b, |data|);
      DotUnit(F, GeneratorRow(F, |data|, i), i, Column(data, b), |data|);
    }
  }

  /** The scalar encoder: m parity shards, byte by byte. */
  method Encode(F: Field<Byte>, k: nat, m: nat, data: seq<Shard>, size: nat) returns (parity: seq<Shard>)
    requires Shards(data, k, size)
    ensures |parity| == m
    ensures forall row | 0 <= row < m :: parity[row] == CodeShard(F, data, size, k + row)
  {
    parity := [];
    for row := 0 to m
      invariant |parity| == row
      invariant forall r | 0 <= r < row :: parity[r] == CodeShard(F, data, size, k + r)
    {
      var shard := EncodeRow(F, k, row, data, size);
      parity := parity + [shard];
    }
  }

  method EncodeRow(F: Field<Byte>, k: nat, row: nat, data: seq<Shard>, size: nat) returns (shard: Shard)
    requires Shards(data, k, size)
    ensures shard == CodeShard(F, data, size, k + row)
  {
    shard := [];
    for b := 0 to size
      invariant |shard| == b
      invariant forall t | 0 <= t < b :: shard[t] == CodeByte(F, data, size, k + row, t)
    {
      var sum := EncodeByte(F, k, row, data, size, b);
      shard := shard + [sum];
    }
  }

  /** One parity byte, with each coefficient recomputed from its row and column. */
  method EncodeByte(F: Field<Byte>, k: nat, row: nat, data: seq<Shard>, ghost size: nat, b: nat) returns (sum: Byte)
    requires Shards(data, k, size) && b < size
    ensures sum == CodeByte(F, data, size, k + row, b)
  {
    sum := F.zero;
    for col := 0 to k
      invariant sum == Combine(F, GeneratorRow(F, k, k + row), data, b, col)
    {
      var x, y := Node(col), Node(k + row);
      var coeff := F.inv(F.add(x, y));
      sum := F.add(sum, F.mul(coeff, data[col][b]));
    }
  }

  // ---- what the parity bytes are ----

  /** The sum of the numbers of column j and row i, counted from one in a byte. */
  function Apart(F: Field<Byte>, j: nat, i: nat): Byte {
    F.add(((j + 1) % 256) as Byte, ((i + 1) % 256) as Byte)
  }

  /** Every coefficient is the inverse of the sum of its column's and its row's number. */
  lemma EntryLaw(F: Field<Byte>, k: nat, i: nat, j: nat)
    requires Laws(F) && j < k <= i < 256
    ensures F.mul(GeneratorRow(F, k, i)[j], Apart(F, j, i)) == F.one && Apart(F, j, i) != F.zero
  {
    NodesDistinct(j, i);
    AddCancels(F, Node(j), Node(i));
    Inverts(F, F.add(Node(j), Node(i)));
  }

  // An inverse is unique.
  lemma OneInverse(F: Field<Byte>, c: Byte, g: Byte, u: Byte)
    requires Laws(F) && F.mul(c, u) == F.one && F.mul(g, u) == F.one
    ensures c == g
  {
    Units(F, c);
    Units(F, g);
    Commutes(F, g, u);
    Associates(F, c, u, g);
  }

  /** Whatever coefficients invert those sums, a parity byte is their combination of the data. */
  lemma ParityByCoefficients(F: Field<Byte>, data: seq<Shard>, size: nat, i: nat, b: nat, c: Row<Byte>)
    requires Laws(F) && Shards(data, |data|, size) && |data| <= i < 256 && b < size
    requires |c| == |data| && forall j | 0 <= j < |data| :: F.mul(c[j], Apart(F, j, i)) == F.one
    ensures CodeShard(F, data, size, i)[b] == Combine(F, c, data, b, |data|)
  {
    var k := |data|;
    forall j | 0 <= j < k ensures c[j] == GeneratorRow(F, k, i)[j] {
      EntryLaw(F, k, i, j);
      OneInverse(F, c[j], GeneratorRow(F, k, i)[j], Apart(F, j, i));
    }
    assert c == GeneratorRow(F, k, i);
  }

  lemma {:induction false} CombineOne(F: Field<Byte>, c: Row<Byte>, data: seq<Shard>, b: nat, j: nat, n: nat)
    requires Laws(F) && n <= |c| && n <= |data| && forall t | 0 <= t < |data| :: b < |data[t]|
    requires forall t | 0 <= t < n && t != j :: data[t][b] == F.zero
    ensures Combine(F, c, data, b, n) == if j < n then F.mul(c[j], data[j][b]) else F.zero
  {
    if n > 0 {
      CombineOne(F, c, data, b, j, n - 1);
      Units(F, c[n - 1]);
      AddUnit(F, Combine(F, c, data, b, n - 1));
      AddUnit(F, F.mul(c[n - 1], data[n - 1][b]));
    }
  }

  /** Where only one shard has a byte, the parity byte times that shard's sum is the byte. */
  lemma ParityOfOneByte(F: Field<Byte>, data: seq<Shard>, size: nat, i: nat, b: nat, j: nat)
    requires Laws(F) && Shards(data, |data|, size) && j < |data| <= i < 256 && b < size
    requires forall t | 0 <= t < |data| && t != j :: data[t][b] == F.zero
    ensures F.mul(CodeShard(F, data, size, i)[b], Apart(F, j, i)) == data[j][b]
  {
    var g, u, v := GeneratorRow(F, |data|, i), Apart(F, j, i), data[j][b];
    CombineOne(F, g, data, b, j, |data|);
    EntryLaw(F, |data|, i, j);
    Commutes(F, g[j], v);
    Associates(F, v, g[j], u);
    Units(F, v);
  }

  lemma {:induction false} CombineAdds(F: Field<Byte>, c: Row<Byte>, x: seq<Shard>, y: seq<Shard>, z: seq<Shard>, b: nat, n: nat)
    requires Laws(F) && n <= |c| && n <= |x| && n <= |y| && n <= |z|
    requires forall t | 0 <= t < n :: b < |x[t]| && b < |y[t]| && b < |z[t]| && z[t][b] == F.add(x[t][b], y[t][b])
    ensures Combine(F, c, z, b, n) == F.add(Combine(F, c, x, b, n), Combine(F, c, y, b, n))
  {
    if n == 0 {
      AddUnit(F, F.zero);
    } else {
      CombineAdds(F, c, x, y, z, b, n - 1);
      Distributes(F, c[n - 1], x[n - 1][b], y[n - 1][b]);
      Interchange(F, Combine(F, c, x, b, n - 1), Combine(F, c, y, b, n - 1), F.mul(c[n - 1], x[n - 1][b]), F.mul(c[n - 1], y[n - 1][b]));
    }
  }

  /** The parity of a sum is the sum of the parities. */
  lemma ParityAdds(F: Field<Byte>, x: seq<Shard>, y: seq<Shard>, z: seq<Shard>, size: nat, i: nat, b: nat)
    requires Laws(F) && |x| == |y| == |z| && b < size
    requires Shards(x, |x|, size) && Shards(y, |x|, size) && Shards(z, |x|, size)
    requires forall t | 0 <= t < |x| :: z[t][b] == F.add(x[t][b], y[t][b])
    ensures CodeShard(F, z, size, i)[b] == F.add(CodeShard(F, x, size, i)[b], CodeShard(F, y, size, i)[b])
  {
    CombineAdds(F, GeneratorRow(F, |x|, i), x, y, z, b, |x|);
  }

  // ---- decoding ----

  datatype DecodeError =
    | InvalidConfig(expected: nat, got: nat)
    | NotEnoughShards(needed: nat, available: nat)
    | DecodingFailed

  /** A panic is an outcome: the inverse of gf/mod.rs panics on zero. */
  datatype Decoded = Ok(data: seq<Shard>) | Err(error: DecodeError) | Panic

  /** The indices below n of the shards that survived, in order. */
  function Present(available: seq<Option<Shard>>, n: nat): (p: seq<nat>)
    requires n <= |available|
    ensures |p| <= n
    ensures forall i | 0 <= i < |p| :: p[i] < n && available[p[i]].Some?
    ensures forall i, j | 0 <= i < j < |p| :: p[i] < p[j]
  {
    if n == 0 then []
    else if available[n - 1].Some? then Present(available, n - 1) + [n - 1]
    else Present(available, n - 1)
  }

  lemma {:induction false} PresentComplete(available: seq<Option<Shard>>, n: nat)
    requires n <= |available|
    ensures forall i | 0 <= i < n && available[i].Some? :: i in Present(available, n)
  {
    if n > 0 {
      PresentComplete(available, n - 1);
    }
  }

  /** What survives of a code word: any of its shards may be missing, none is altered. */
  ghost predicate Survives(F: Field<Byte>, available: seq<Option<Shard>>, k: nat, m: nat, data: seq<Shard>, size: nat) {
    && |available| == k + m
    && Shards(data, k, size)
    && forall i | 0 <= i < k + m && available[i].Some? :: available[i].value == CodeShard(F, data, size, i)
  }

  // The inverse of the selected rows takes the surviving shards back to the data.
  lemma RecoversByte(F: Field<Byte>, k: nat, rows: seq<nat>, inv: Matrix<Byte>, data: seq<Shard>, sub: seq<Shard>, size: nat, i: nat, b: nat)
    requires |rows| == k && Rectangular(inv, k, k) && Inverse(F, SelectedRows(F, k, rows), inv, k)
    requires Shards(data, k, size) && Shards(sub, k, size) && i < k && b < size
    requires forall r | 0 <= r < k :: sub[r][b] == CodeByte(F, data, size, rows[r], b)
    ensures Combine(F, inv[i], sub, b, k) == data[i][b]
  {
    SurvivingColumn(F, k, rows, data, sub, size, b);
    InverseRecovers(F, SelectedRows(F, k, rows), inv, k, Column(data, b), Column(sub, b), i);
    CombineIsDot(F, inv[i], sub, b, k);
  }

  lemma SurvivingColumn(F: Field<Byte>, k: nat, rows: seq<nat>, data: seq<Shard>, sub: seq<Shard>, size: nat, b: nat)
    requires |rows| == k && Shards(data, k, size) && Shards(sub, k, size) && b < size
    requires forall r | 0 <= r < k :: sub[r][b] == CodeByte(F, data, size, rows[r], b)
    ensures forall r | 0 <= r < k :: Column(sub, b)[r] == Dot(F, SelectedRows(F, k, rows)[r], Column(data, b), k)
  {
    forall r | 0 <= r < k ensures Column(sub, b)[r] == Dot(F, SelectedRows(F, k, rows)[r], Column(data, b), k) {
      CombineIsDot(F, GeneratorRow(F, k, rows[r]), data, b, k);
    }
  }

  lemma RecoversData(F: Field<Byte>, available: seq<Option<Shard>>, k: nat, m: nat, rows: seq<nat>, inv: Matrix<Byte>,
                     data: seq<Shard>, sub: seq<Shard>, size: nat, output: seq<Shard>)
    requires |rows| == k && Rectangular(inv, k, k) && Inverse(F, SelectedRows(F, k, rows), inv, k)
    requires Survives(F, available, k, m, data, size) && Shards(sub, k, size)
    requires forall r | 0 <= r < k ::
      rows[r] < k + m && available[rows[r]].Some? && sub[r] == available[rows[r]].value
    requires Shards(output, k, size)
    requires forall i, b | 0 <= i < k && 0 <= b < size :: output[i][b] == Combine(F, inv[i], sub, b, k)
    ensures output == data
  {
    forall i, b | 0 <= i < k && 0 <= b < size ensures output[i][b] == data[i][b] {
      forall r | 0 <= r < k ensures sub[r][b] == CodeByte(F, data, size, rows[r], b) {
        assert sub[r] == CodeShard(F, data, size, rows[r]);
      }
      RecoversByte(F, k, rows, inv, data, sub, size, i, b);
    }
    assert forall i | 0 <= i < k :: output[i] == data[i];
  }

  /** The decoder of isal.rs (with `shortcut` for empty shards) and of cauchy.rs (without): the first
      k survivors, their rows inverted, applied byte by byte.

      From any k shards of a code word of at most 256 the original data comes back, and the matrix
      is never found singular; with more than 256 shards building the generator panics. */
  method Decode(F: Field<Byte>, available: seq<Option<Shard>>, k: nat, m: nat, shortcut: bool) returns (result: Decoded)
    requires Laws(F) && 1 <= k <= 255 && m <= 255
    requires EqualLengths(available)
    ensures |available| != k + m <==> result == Err(InvalidConfig(k + m, |available|))
    ensures |available| == k + m && |Present(available, k + m)| < k ==>
      result == Err(NotEnoughShards(k, |Present(available, k + m)|))
    ensures |available| == k + m && k <= |Present(available, k + m)| ==>
      && !result.Err?
      && (result.Panic? <==> k + m > 256 && !(shortcut && Empty(available)))
      && (result.Ok? ==> forall data, size | Survives(F, available, k, m, data, size) :: result.data == data)
  {
    if |available| != k + m {
      return Err(InvalidConfig(k + m, |available|));
    }
    var present := FindPresent(available);
    if |present| < k {
      return Err(NotEnoughShards(k, |present|));
    }
    var size := |available[present[0]].value|;
    FirstLength(available, k + m);
    if shortcut && size == 0 {
      result := Ok(seq(k, i => []));
      EmptyShards(F, available, k, m, result.data);
      return;
    }
    var gen := BuildStrictGenerator(F, k, m);
    if gen.None? {
      return Panic;
    }
    AnyRowsNonsingular(F, k, m, present[..k]);
    var output := DecodeFrom(F, gen.value, available, k, m, present[..k], size);
    result := Ok(output.value);
    SizeOfWord(F, available, k, m, size);
  }

  ghost predicate EqualLengths(available: seq<Option<Shard>>) {
    forall i, j | 0 <= i < j < |available| && available[i].Some? && available[j].Some? ::
      |available[i].value| == |available[j].value|
  }

  /** The surviving shards are empty. */
  ghost predicate Empty(available: seq<Option<Shard>>) {
    exists i :: 0 <= i < |available| && available[i].Some? && available[i].value == []
  }

  // Every survivor is as long as the first.
  lemma FirstLength(available: seq<Option<Shard>>, n: nat)
    requires EqualLengths(available) && n == |available| && Present(available, n) != []
    ensures var size := |available[Present(available, n)[0]].value|;
      && (forall i | 0 <= i < n && available[i].Some? :: |available[i].value| == size)
      && (Empty(available) <==> size == 0)
  {
    var first := Present(available, n)[0];
    assert available[first].Some?;
    forall i | 0 <= i < n && available[i].Some? ensures |available[i].value| == |available[first].value| {
      assert i < first || i == first || first < i;
    }
  }

  lemma EmptyShards(F: Field<Byte>, available: seq<Option<Shard>>, k: nat, m: nat, output: seq<Shard>)
    requires Empty(available) && Shards(output, k, 0)
    ensures forall data, size | Survives(F, available, k, m, data, size) :: output == data
  {
    forall data, size | Survives(F, available, k, m, data, size) ensures output == data {
      var i :| 0 <= i < |available| && available[i].Some? && available[i].value == [];
      assert |CodeShard(F, data, size, i)| == size;
      assert forall j | 0 <= j < k :: output[j] == data[j];
    }
  }

  // The survivors show how long the shards of the code word are.
  lemma SizeOfWord(F: Field<Byte>, available: seq<Option<Shard>>, k: nat, m: nat, size: nat)
    requires exists i :: 0 <= i < |available| && available[i].Some?
    requires forall i | 0 <= i < |available| && available[i].Some? :: |available[i].value| == size
    ensures forall data, size' | Survives(F, available, k, m, data, size') :: size' == size
  {
    forall data, size' | Survives(F, available, k, m, data, size') ensures size' == size {
      var i :| 0 <= i < |available| && available[i].Some?;
      assert |CodeShard(F, data, size', i)| == size';
    }
  }

  /** Inverts the chosen rows and applies the inverse to the chosen shards. */
  method DecodeFrom(F: Field<Byte>, gen: Matrix<Byte>, available: seq<Option<Shard>>, k: nat, m: nat, rows: seq<nat>, size: nat)
    returns (output: Option<seq<Shard>>)
    requires Laws(F) && |available| == k + m && |rows| == k && IsGenerator(F, gen, k, m)
    requires Chosen(available, rows, size)
    ensures output.Some? <==> Nonsingular(F, SelectedRows(F, k, rows))
    ensures output.Some? ==> forall data | Survives(F, available, k, m, data, size) :: output.value == data
  {
    var sub, inverse := InvertChosen(F, gen, available, k, m, rows, size);
    if inverse.None? {
      return None;
    }
    var shards := MultiplyShards(F, inverse.value, sub, size);
    forall data | Survives(F, available, k, m, data, size) ensures shards == data {
      RecoversData(F, available, k, m, rows, inverse.value, data, sub, size, shards);
    }
    output := Some(shards);
  }

  /** These shards survived. */
  ghost predicate Chosen(available: seq<Option<Shard>>, rows: seq<nat>, size: nat) {
    forall i | 0 <= i < |rows| ::
      rows[i] < |available| && available[rows[i]].Some? && |available[rows[i]].value| == size
  }

  /** Picks the chosen shards and inverts their rows of the generator. */
  method InvertChosen(F: Field<Byte>, gen: Matrix<Byte>, available: seq<Option<Shard>>, k: nat, m: nat, rows: seq<nat>, size: nat)
    returns (sub: seq<Shard>, inverse: Option<Matrix<Byte>>)
    requires Laws(F) && |available| == k + m && |rows| == k && IsGenerator(F, gen, k, m)
    requires Chosen(available, rows, size)
    ensures Shards(sub, k, size) && forall i | 0 <= i < k :: sub[i] == available[rows[i]].value
    ensures inverse.Some? <==> Nonsingular(F, SelectedRows(F, k, rows))
    ensures inverse.Some? ==> Rectangular(inverse.value, k, k) && Inverse(F, SelectedRows(F, k, rows), inverse.value, k)
  {
    var matrix;
    sub, matrix := SelectSurvivors(available, gen, rows, size);
    assert matrix == SelectedRows(F, k, rows);
    inverse := Invert(F, matrix);
  }

  ghost predicate IsGenerator(F: Field<Byte>, g: Matrix<Byte>, k: nat, m: nat) {
    |g| == k + m && forall i | 0 <= i < k + m :: g[i] == GeneratorRow(F, k, i)
  }

  // ---- building the generator with an inverse that refuses zero ----

  /** The inverse of gf/mod.rs; None is its panic. */
  function StrictInverse(F: Field<Byte>, a: Byte): Option<Byte> {
    if a == F.zero then None else Some(F.inv(a))
  }

  /** A Cauchy row, unless one of its nodes meets the row's own. */
  method StrictCauchyRow(F: Field<Byte>, k: nat, i: nat) returns (r: Option<Row<Byte>>)
    requires Laws(F) && k <= i
    ensures r.Some? <==> forall j | 0 <= j < k :: Node(j) != Node(i)
    ensures r.Some? ==> r.value == GeneratorRow(F, k, i)
  {
    var row := [];
    for j := 0 to k
      invariant |row| == j && forall t | 0 <= t < j :: row[t] == F.inv(F.add(Node(t), Node(i))) && Node(t) != Node(i)
    {
      AddCancels(F, Node(j), Node(i));
      var entry := StrictInverse(F, F.add(Node(j), Node(i)));
      if entry.None? {
        return None;
      }
      row := row + [entry.value];
    }
    assert row == GeneratorRow(F, k, i);
    r := Some(row);
  }

  /** The generator of isal.rs and cauchy.rs: it is built exactly when there are no data shards, no
      parity shards, or at most 256 shards; past that an entry inverts zero. */
  method BuildStrictGenerator(F: Field<Byte>, k: nat, m: nat) returns (g: Option<Matrix<Byte>>)
    requires Laws(F) && k <= 255 && m <= 255
    ensures g.Some? <==> k == 0 || m == 0 || k + m <= 256
    ensures g.Some? ==> IsGenerator(F, g.value, k, m)
  {
    var rows := [];
    for i := 0 to k
      invariant |rows| == i && forall r | 0 <= r < i :: rows[r] == GeneratorRow(F, k, r)
    {
      rows := rows + [UnitRow(F, i, k)];
    }
    for i := k to k + m
      invariant |rows| == i && forall r | 0 <= r < i :: rows[r] == GeneratorRow(F, k, r)
      invariant k == 0 || i <= 256
    {
      if k > 0 {
        NodesMeet(k, i);
      }
      var row := StrictCauchyRow(F, k, i);
      if row.None? {
        return None;
      }
      rows := rows + [row.value];
    }
    g := Some(rows);
  }

  // The first row whose node meets a column's is row 256, which meets column 0.
  lemma NodesMeet(k: nat, i: nat)
    requires 1 <= k <= 255 && k <= i <= 256
    ensures (forall j | 0 <= j < k :: Node(j) != Node(i)) <==> i < 256
  {
    if i < 256 {
      forall j | 0 <= j < k ensures Node(j) != Node(i) {
        NodesDistinct(j, i);
      }
    } else {
      assert Node(0) == Node(256);
    }
  }

  /** Fills in the generator: ones on the diagonal above, Cauchy entries below. */
  method BuildGenerator(F: Field<Byte>, k: nat, m: nat) returns (g: Matrix<Byte>)
    ensures IsGenerator(F, g, k, m)
  {
    var rows := new Row<Byte>[k + m](i => seq(k, j => F.zero));
    for i := 0 to k
      invariant forall r | 0 <= r < i :: rows[r] == UnitRow(F, r, k)
      invariant forall r | i <= r < k + m :: rows[r] == seq(k, j => F.zero)
    {
      rows[i] := rows[i][i := F.one];
    }
    for i := k to k + m
      invariant forall r | 0 <= r < i :: rows[r] == GeneratorRow(F, k, r)
      invariant forall r | i <= r < k + m :: |rows[r]| == k
    {
      FillCauchyRow(F, k, i, rows);
    }
    g := rows[..];
  }

  /** Overwrites a row with its Cauchy entries. */
  method FillCauchyRow(F: Field<Byte>, k: nat, i: nat, rows: array<Row<Byte>>)
    requires k <= i < rows.Length && |rows[i]| == k
    modifies rows
    ensures rows[i] == GeneratorRow(F, k, i) && forall r | 0 <= r < rows.Length && r != i :: rows[r] == old(rows[r])
  {
    for j := 0 to k
      invariant |rows[i]| == k && forall r | 0 <= r < rows.Length && r != i :: rows[r] == old(rows[r])
      invariant forall t | 0 <= t < j :: rows[i][t] == F.inv(F.add(Node(t), Node(i)))
    {
      rows[i] := rows[i][j := F.inv(F.add(Node(j), Node(i)))];
    }
    assert rows[i] == GeneratorRow(F, k, i);
  }

  method FindPresent(available: seq<Option<Shard>>) returns (present: seq<nat>)
    ensures present == Present(available, |available|)
  {
    present := [];
    for i := 0 to |available|
      invariant present == Present(available, i)
    {
      if available[i].Some? {
        present := present + [i];
      }
    }
  }

  method SelectSurvivors(available: seq<Option<Shard>>, gen: Matrix<Byte>, rows: seq<nat>, ghost size: nat)
    returns (sub: seq<Shard>, matrix: Matrix<Byte>)
    requires |gen| == |available|
    requires forall i | 0 <= i < |rows| ::
      rows[i] < |available| && available[rows[i]].Some? && |available[rows[i]].value| == size
    ensures Shards(sub, |rows|, size) && |matrix| == |rows|
    ensures forall i | 0 <= i < |rows| :: sub[i] == available[rows[i]].value && matrix[i] == gen[rows[i]]
  {
    sub, matrix := [], [];
    for i := 0 to |rows|
      invariant |sub| == |matrix| == i
      invariant forall r | 0 <= r < i :: sub[r] == available[rows[r]].value && matrix[r] == gen[rows[r]]
    {
      matrix := matrix + [gen[rows[i]]];
      sub := sub + [available[rows[i]].value];
    }
  }

  /** Every output byte is a row of the matrix times a column of the shards, as
      ec_encode_data states it. */
  method MultiplyShards(F: Field<Byte>, matrix: Matrix<Byte>, sub: seq<Shard>, size: nat) returns (output: seq<Shard>)
    requires Shards(sub, |sub|, size) && Rectangular(matrix, |matrix|, |sub|)
    ensures Shards(output, |matrix|, size)
    ensures forall i, b | 0 <= i < |matrix| && 0 <= b < size :: output[i][b] == Combine(F, matrix[i], sub, b, |sub|)
  {
    output := [];
    for i := 0 to |matrix|
      invariant Shards(output, i, size)
      invariant forall r, b | 0 <= r < i && 0 <= b < size :: output[r][b] == Combine(F, matrix[r], sub, b, |sub|)
    {
      var shard := MultiplyRow(F, matrix[i], sub, size);
      output := output + [shard];
    }
  }

  method MultiplyRow(F: Field<Byte>, row: Row<Byte>, sub: seq<Shard>, size: nat) returns (shard: Shard)
    requires Shards(sub, |sub|, size) && |row| == |sub|
    ensures |shard| == size
    ensures forall b | 0 <= b < size :: shard[b] == Combine(F, row, sub, b, |sub|)
  {
    shard := [];
    for b := 0 to size
      invariant |shard| == b
      invariant forall t | 0 <= t < b :: shard[t] == Combine(F, row, sub, t, |sub|)
    {
      var sum := MultiplyByte(F, row, sub, size, b);
      shard := shard + [sum];
    }
  }

  method MultiplyByte(F: Field<Byte>, row: Row<Byte>, sub: seq<Shard>, ghost size: nat, b: nat) returns (sum: Byte)
    requires Shards(sub, |row|, size) && b < size
    ensures sum == Combine(F, row, sub, b, |row|)
  {
    sum := F.zero;
    for j := 0 to |row|
      invariant sum == Combine(F, row, sub, b, j)
    {
      sum := F.add(sum, F.mul(row[j], sub[j][b]));
    }
  }

  /** The matrix encoder of isal.rs (with `shortcut` for empty shards) and of cauchy.rs (without): the
      Cauchy rows times the data, or None for the panic past 256 shards. */
  method EncodeStrict(F: Field<Byte>, k: nat, m: nat, data: seq<Shard>, size: nat, shortcut: bool) returns (parity: Option<seq<Shard>>)
    requires Laws(F) && 1 <= k <= 255 && m <= 255 && Shards(data, k, size)
    ensures parity.Some? <==> m == 0 || k + m <= 256 || (shortcut && size == 0)
    ensures parity.Some? ==> |parity.value| == m
    ensures parity.Some? ==> forall row | 0 <= row < m :: parity.value[row] == CodeShard(F, data, size, k + row)
  {
    if shortcut && size == 0 {
      return Some(seq(m, _ => []));
    }
    var gen := BuildStrictGenerator(F, k, m);
    if gen.None? {
      return None;
    }
    var rows := gen.value[k..];
    var shards := MultiplyShards(F, rows, data, size);
    forall row | 0 <= row < m ensures shards[row] == CodeShard(F, data, size, k + row) {
      assert rows[row] == GeneratorRow(F, k, k + row);
      assert forall b | 0 <= b < size :: shards[row][b] == CodeByte(F, data, size, k + row, b);
    }
    parity := Some(shards);
  }
}
