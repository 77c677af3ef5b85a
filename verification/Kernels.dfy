/** The table kernels: multiplication split into two sixteen-entry tables, and the
    vector loops built on it (arm_sve.rs GfMulTable, neon_encode, encode_sve2,
    neon_decode, decode_sve2). Vectors are modelled as sequences of lanes. */
module Kernels {
  import opened Common
  import opened Fields
  import opened GaussJordan
  import opened Codec

  // Marks the bytes whose XOR is wanted.
  predicate Pair(a: Byte, b: Byte) { true }

  /** The field adds bytes by XOR. */
  ghost predicate ByteField(F: Field<Byte>) {
    Laws(F) && forall a, b {:trigger Pair(a, b)} :: Pair(a, b) ==> F.add(a, b) == a ^ b
  }

  /** Products by one coefficient: of the low nibbles and of the high nibbles. */
  datatype MulTable = MulTable(lo: seq<Byte>, hi: seq<Byte>)

  ghost predicate TableFor(F: Field<Byte>, t: MulTable, c: Byte) {
    && |t.lo| == 16 && |t.hi| == 16
    && forall i | 0 <= i < 16 :: t.lo[i] == F.mul(c, i as Byte) && t.hi[i] == F.mul(c, (16 * i) as Byte)
  }

  method BuildMulTable(F: Field<Byte>, c: Byte) returns (t: MulTable)
    ensures TableFor(F, t, c)
  {
    var lo, hi := [], [];
    for i := 0 to 16
      invariant |lo| == |hi| == i
      invariant forall j | 0 <= j < i :: lo[j] == F.mul(c, j as Byte) && hi[j] == F.mul(c, (16 * j) as Byte)
    {
      lo := lo + [F.mul(c, i as Byte)];
      hi := hi + [F.mul(c, (16 * i) as Byte)];
    }
    t := MulTable(lo, hi);
  }

  function LowNibble(b: Byte): (i: nat)
    ensures i < 16
  {
    NibbleBounds(b);
    (b & 0x0F) as nat
  }

  function HighNibble(b: Byte): (i: nat)
    ensures i < 16
  {
    NibbleBounds(b);
    (b >> 4) as nat
  }

  lemma NibbleBounds(b: Byte)
    ensures (b & 0x0F) as nat < 16 && (b >> 4) as nat < 16
  {
    assert b & 0x0F < 16 && b >> 4 < 16;
  }

  // A byte is its low nibble and its high nibble moved up.
  lemma NibblesMakeByte(b: Byte)
    ensures b == (LowNibble(b) as Byte) ^ ((16 * HighNibble(b)) as Byte)
  {
    NibbleBounds(b);
    ShiftIsTimes16(b >> 4);
    MaskAndShift(b);
  }

  lemma MaskAndShift(b: Byte)
    ensures b == (b & 0x0F) ^ ((b >> 4) << 4)
    ensures b >> 4 < 16
  {
  }

  lemma ShiftIsTimes16(h: Byte)
    requires h < 16
    ensures 16 * (h as nat) < 256 && (16 * (h as nat)) as Byte == h << 4
  {
  }

  /** One lane: both lookups, combined by the field's addition (XOR). */
  function Lookup(F: Field<Byte>, lo: seq<Byte>, hi: seq<Byte>, b: Byte): Byte
    requires |lo| >= 16 && |hi| >= 16
  {
    F.add(lo[LowNibble(b)], hi[HighNibble(b)])
  }

  lemma NibblesAdd(F: Field<Byte>, b: Byte)
    requires ByteField(F)
    ensures F.add(LowNibble(b) as Byte, (16 * HighNibble(b)) as Byte) == b
  {
    NibblesMakeByte(b);
    assert Pair(LowNibble(b) as Byte, (16 * HighNibble(b)) as Byte);
  }

  /** The split tables multiply. */
  lemma LookupMultiplies(F: Field<Byte>, t: MulTable, c: Byte, b: Byte)
    requires ByteField(F) && TableFor(F, t, c)
    ensures Lookup(F, t.lo, t.hi, b) == F.mul(c, b)
  {
    NibblesAdd(F, b);
    Distributes(F, c, LowNibble(b) as Byte, (16 * HighNibble(b)) as Byte);
  }

  ghost predicate TablesFor(F: Field<Byte>, tables: seq<MulTable>, coeffs: Row<Byte>) {
    |tables| == |coeffs| && forall j | 0 <= j < |coeffs| :: TableFor(F, tables[j], coeffs[j])
  }

  method BuildTables(F: Field<Byte>, coeffs: Row<Byte>) returns (tables: seq<MulTable>)
    ensures TablesFor(F, tables, coeffs)
  {
    tables := [];
    for j := 0 to |coeffs|
      invariant TablesFor(F, tables, coeffs[..j])
    {
      var t := BuildMulTable(F, coeffs[j]);
      tables := tables + [t];
    }
    assert coeffs[..|coeffs|] == coeffs;
  }

  /** What every kernel must compute: coefficients times column, at every byte. */
  ghost predicate IsProduct(F: Field<Byte>, coeffs: Row<Byte>, data: seq<Shard>, size: nat, out: Shard)
    requires Shards(data, |coeffs|, size)
  {
    |out| == size && forall b | 0 <= b < size :: out[b] == Combine(F, coeffs, data, b, |coeffs|)
  }

  // ---- accumulating in a register, one chunk at a time ----

  /** One row of neon_encode (16 lanes), neon_decode (16) and decode_sve2 (VL): each chunk is
      summed over the columns in a register and stored once; the tail is scalar. */
  method RegisterKernel(F: Field<Byte>, lanes: nat, tables: seq<MulTable>, coeffs: Row<Byte>, data: seq<Shard>, size: nat)
    returns (out: Shard)
    requires ByteField(F) && lanes > 0
    requires TablesFor(F, tables, coeffs) && Shards(data, |coeffs|, size)
    ensures IsProduct(F, coeffs, data, size, out)
  {
    var buf := new Byte[size](_ => 0);
    var chunks := size / lanes;
    ChunkBounds(size, lanes);
    for chunk := 0 to chunks
      invariant forall b | 0 <= b < chunk * lanes :: buf[b] == Combine(F, coeffs, data, b, |coeffs|)
    {
      var offset := chunk * lanes;
      ChunkFits(chunk, chunks, lanes);
      var acc := SumChunk(F, lanes, tables, coeffs, data, size, offset);
      Store(buf, offset, acc);
    }
    Tail(F, coeffs, data, size, chunks * lanes, buf);
    out := buf[..];
  }

  /** Stores a register at an offset. */
  method Store(buf: array<Byte>, offset: nat, lanes: seq<Byte>)
    requires offset + |lanes| <= buf.Length
    modifies buf
    ensures forall b | 0 <= b < buf.Length ::
      buf[b] == if offset <= b < offset + |lanes| then lanes[b - offset] else old(buf[b])
  {
    for l := 0 to |lanes|
      invariant forall b | 0 <= b < buf.Length ::
        buf[b] == if offset <= b < offset + l then lanes[b - offset] else old(buf[b])
    {
      buf[offset + l] := lanes[l];
    }
  }

  lemma ChunkBounds(size: nat, lanes: nat)
    requires lanes > 0
    ensures 0 <= size / lanes * lanes <= size < size / lanes * lanes + lanes
  {
  }

  lemma ChunkFits(chunk: nat, chunks: nat, lanes: nat)
    requires chunk < chunks
    ensures chunk * lanes + lanes == (chunk + 1) * lanes <= chunks * lanes
  {
  }

  /** The register after all columns: lane l holds the product at offset + l. */
  method SumChunk(F: Field<Byte>, lanes: nat, tables: seq<MulTable>, coeffs: Row<Byte>, data: seq<Shard>, ghost size: nat, offset: nat)
    returns (acc: seq<Byte>)
    requires ByteField(F) && TablesFor(F, tables, coeffs) && Shards(data, |coeffs|, size)
    requires offset + lanes <= size
    ensures |acc| == lanes
    ensures forall l | 0 <= l < lanes :: acc[l] == Combine(F, coeffs, data, offset + l, |coeffs|)
  {
    acc := seq(lanes, _ => F.zero);
    for col := 0 to |coeffs|
      invariant |acc| == lanes
      invariant forall l | 0 <= l < lanes :: acc[l] == Combine(F, coeffs, data, offset + l, col)
    {
      var prev, t, shard := acc, tables[col], data[col];
      acc := seq(lanes, l requires 0 <= l < lanes => F.add(prev[l], Lookup(F, t.lo, t.hi, shard[offset + l])));
      forall l | 0 <= l < lanes ensures acc[l] == Combine(F, coeffs, data, offset + l, col + 1) {
        LookupMultiplies(F, t, coeffs[col], shard[offset + l]);
      }
    }
  }

  /** The scalar remainder. */
  method Tail(F: Field<Byte>, coeffs: Row<Byte>, data: seq<Shard>, size: nat, start: nat, buf: array<Byte>)
    requires Shards(data, |coeffs|, size) && start <= size == buf.Length
    modifies buf
    ensures forall b | 0 <= b < start :: buf[b] == old(buf[b])
    ensures forall b | start <= b < size :: buf[b] == Combine(F, coeffs, data, b, |coeffs|)
  {
    for b := start to size
      invariant forall t | 0 <= t < start :: buf[t] == old(buf[t])
      invariant forall t | start <= t < b :: buf[t] == Combine(F, coeffs, data, t, |coeffs|)
    {
      buf[b] := MultiplyByte(F, coeffs, data, size, b);
    }
  }

  // ---- accumulating in memory, one column at a time ----

  /** A sixteen-entry table widened to the vector length. */
  function Padded(table: seq<Byte>, vl: nat): (p: seq<Byte>)
    requires |table| == 16 <= vl
    ensures |p| == vl && p[..16] == table
  {
    table + seq(vl - 16, _ => 0)
  }

  /** One row of encode_sve2: the columns are the outer loop, and each pass adds its products
      into the parity buffer in place; the tail is then overwritten by the scalar loop. */
  method AccumulateKernel(F: Field<Byte>, vl: nat, tables: seq<MulTable>, coeffs: Row<Byte>, data: seq<Shard>, size: nat)
    returns (out: Shard)
    requires ByteField(F) && vl >= 16
    requires TablesFor(F, tables, coeffs) && Shards(data, |coeffs|, size)
    ensures IsProduct(F, coeffs, data, size, out)
  {
    var buf := new Byte[size](_ => F.zero);
    ghost var full := size / vl * vl;
    ChunkBounds(size, vl);
    ProductIsMultiple(size / vl, vl);
    for col := 0 to |coeffs|
      invariant forall b | 0 <= b < full :: buf[b] == Combine(F, coeffs, data, b, col)
    {
      AddColumn(F, vl, tables[col], coeffs, data, size, col, full, buf);
    }
    Tail(F, coeffs, data, size, size / vl * vl, buf);
    out := buf[..];
  }

  /** Adds one column's products over all whole vectors; `full` is where they end. */
  method AddColumn(F: Field<Byte>, vl: nat, t: MulTable, coeffs: Row<Byte>, data: seq<Shard>, size: nat, col: nat,
                   ghost full: nat, buf: array<Byte>)
    requires ByteField(F) && vl >= 16 && Shards(data, |coeffs|, size)
    requires col < |coeffs| && TableFor(F, t, coeffs[col]) && buf.Length == size
    requires IsMultiple(full, vl) && full <= size < full + vl
    requires forall b | 0 <= b < full :: buf[b] == Combine(F, coeffs, data, b, col)
    modifies buf
    ensures forall b | 0 <= b < full :: buf[b] == Combine(F, coeffs, data, b, col + 1)
  {
    var lo, hi := Padded(t.lo, vl), Padded(t.hi, vl);
    var offset := 0;
    while offset + vl <= size
      invariant IsMultiple(offset, vl) && offset <= full
      invariant forall b | 0 <= b < offset :: buf[b] == Combine(F, coeffs, data, b, col + 1)
      invariant forall b | offset <= b < full :: buf[b] == Combine(F, coeffs, data, b, col)
    {
      MultiplesApart(offset, full, vl);
      AddVector(F, vl, lo, hi, t, coeffs, data, size, col, offset, full, buf);
      offset := offset + vl;
    }
    MultiplesApart(offset, full, vl);
  }

  ghost predicate IsMultiple(x: nat, n: nat)
    requires n > 0
  {
    x == 0 || (x >= n && IsMultiple(x - n, n))
  }

  lemma {:induction false} MultiplesApart(x: nat, y: nat, n: nat)
    requires n > 0 && IsMultiple(x, n) && IsMultiple(y, n)
    ensures x < y ==> x + n <= y
  {
    if x > 0 && y > 0 {
      MultiplesApart(x - n, y - n, n);
    }
  }

  lemma {:induction false} ProductIsMultiple(q: nat, n: nat)
    requires n > 0
    ensures IsMultiple(q * n, n)
  {
    if q > 0 {
      ProductIsMultiple(q - 1, n);
      assert q * n - n == (q - 1) * n;
    }
  }

  /** Adds one vector of products in place. */
  method AddVector(F: Field<Byte>, vl: nat, lo: seq<Byte>, hi: seq<Byte>, ghost t: MulTable, coeffs: Row<Byte>, data: seq<Shard>,
                   ghost size: nat, col: nat, offset: nat, ghost full: nat, buf: array<Byte>)
    requires ByteField(F) && vl >= 16 && Shards(data, |coeffs|, size) && buf.Length == size
    requires col < |coeffs| && TableFor(F, t, coeffs[col])
    requires |lo| == |hi| == vl && lo[..16] == t.lo && hi[..16] == t.hi
    requires offset + vl <= full <= size
    requires forall b | 0 <= b < offset :: buf[b] == Combine(F, coeffs, data, b, col + 1)
    requires forall b | offset <= b < full :: buf[b] == Combine(F, coeffs, data, b, col)
    modifies buf
    ensures forall b | 0 <= b < offset + vl :: buf[b] == Combine(F, coeffs, data, b, col + 1)
    ensures forall b | offset + vl <= b < full :: buf[b] == Combine(F, coeffs, data, b, col)
  {
    for l := 0 to vl
      invariant forall b | 0 <= b < offset + l :: buf[b] == Combine(F, coeffs, data, b, col + 1)
      invariant forall b | offset + l <= b < full :: buf[b] == Combine(F, coeffs, data, b, col)
    {
      var x := data[col][offset + l];
      assert Lookup(F, lo, hi, x) == Lookup(F, t.lo, t.hi, x);
      LookupMultiplies(F, t, coeffs[col], x);
      buf[offset + l] := F.add(buf[offset + l], Lookup(F, lo, hi, x));
    }
  }

  // ---- the kernels and the scalar encoder agree ----

  /** A kernel given the coefficients of parity row `row` yields that shard of the code word. */
  lemma ProductIsCodeShard(F: Field<Byte>, data: seq<Shard>, size: nat, row: nat, out: Shard)
    requires Shards(data, |data|, size)
    requires IsProduct(F, GeneratorRow(F, |data|, |data| + row), data, size, out)
    ensures out == CodeShard(F, data, size, |data| + row)
  {
    var shard := CodeShard(F, data, size, |data| + row);
    forall b | 0 <= b < size ensures out[b] == shard[b] {
      assert out[b] == Combine(F, GeneratorRow(F, |data|, |data| + row), data, b, |data|);
    }
  }

  /** The sixteen-lane encoder computes the scalar parity. */
  method EncodeNeon(F: Field<Byte>, k: nat, m: nat, data: seq<Shard>, size: nat) returns (parity: seq<Shard>)
    requires ByteField(F) && Shards(data, k, size)
    ensures |parity| == m
    ensures forall row | 0 <= row < m :: parity[row] == CodeShard(F, data, size, k + row)
  {
    parity := [];
    for row := 0 to m
      invariant |parity| == row
      invariant forall r | 0 <= r < row :: parity[r] == CodeShard(F, data, size, k + r)
    {
      var out := EncodeRowNeon(F, k, row, data, size);
      parity := parity + [out];
    }
  }

  method EncodeRowNeon(F: Field<Byte>, k: nat, row: nat, data: seq<Shard>, size: nat) returns (out: Shard)
    requires ByteField(F) && Shards(data, k, size)
    ensures out == CodeShard(F, data, size, k + row)
  {
    var coeffs := GeneratorRow(F, k, k + row);
    var tables := BuildTables(F, coeffs);
    out := RegisterKernel(F, 16, tables, coeffs, data, size);
    ProductIsCodeShard(F, data, size, row, out);
  }

  /** The scalable-vector encoder computes the scalar parity, whatever the vector length. */
  method EncodeSve2(F: Field<Byte>, vl: nat, k: nat, m: nat, data: seq<Shard>, size: nat) returns (parity: seq<Shard>)
    requires ByteField(F) && vl >= 16 && Shards(data, k, size)
    ensures |parity| == m
    ensures forall row | 0 <= row < m :: parity[row] == CodeShard(F, data, size, k + row)
  {
    parity := [];
    for row := 0 to m
      invariant |parity| == row
      invariant forall r | 0 <= r < row :: parity[r] == CodeShard(F, data, size, k + r)
    {
      var out := EncodeRowSve2(F, vl, k, row, data, size);
      parity := parity + [out];
    }
  }

  method EncodeRowSve2(F: Field<Byte>, vl: nat, k: nat, row: nat, data: seq<Shard>, size: nat) returns (out: Shard)
    requires ByteField(F) && vl >= 16 && Shards(data, k, size)
    ensures out == CodeShard(F, data, size, k + row)
  {
    var coeffs := GeneratorRow(F, k, k + row);
    var tables := BuildTables(F, coeffs);
    out := AccumulateKernel(F, vl, tables, coeffs, data, size);
    ProductIsCodeShard(F, data, size, row, out);
  }

  /** The vector decoders' recovery step (neon_decode with 16 lanes, decode_sve2 with VL)
      computes what the scalar one does. */
  method MultiplyShardsVector(F: Field<Byte>, lanes: nat, matrix: Matrix<Byte>, sub: seq<Shard>, size: nat) returns (output: seq<Shard>)
    requires ByteField(F) && lanes > 0
    requires Shards(sub, |sub|, size) && Rectangular(matrix, |matrix|, |sub|)
    ensures Shards(output, |matrix|, size)
    ensures forall i, b | 0 <= i < |matrix| && 0 <= b < size :: output[i][b] == Combine(F, matrix[i], sub, b, |sub|)
  {
    output := [];
    for i := 0 to |matrix|
      invariant Shards(output, i, size)
      invariant forall r, b | 0 <= r < i && 0 <= b < size :: output[r][b] == Combine(F, matrix[r], sub, b, |sub|)
    {
      var tables := BuildTables(F, matrix[i]);
      var shard := RegisterKernel(F, lanes, tables, matrix[i], sub, size);
      output := output + [shard];
    }
  }

  // ---- the vector decoder and its fallback ----

  /** neon_decode (16 lanes) and decode_sve2 (VL): the generator in which zero inverts to zero, the
      chosen rows inverted, the shards multiplied in vectors. */
  method DecodeVector(F: Field<Byte>, lanes: nat, available: seq<Option<Shard>>, k: nat, m: nat, rows: seq<nat>, size: nat)
    returns (output: Option<seq<Shard>>)
    requires ByteField(F) && lanes > 0 && |available| == k + m && |rows| == k && Chosen(available, rows, size)
    ensures output.Some? <==> Nonsingular(F, SelectedRows(F, k, rows))
    ensures output.Some? ==> forall data | Survives(F, available, k, m, data, size) :: output.value == data
  {
    var gen := BuildGenerator(F, k, m);
    var sub, inverse := InvertChosen(F, gen, available, k, m, rows, size);
    if inverse.None? {
      return None;
    }
    var shards := MultiplyShardsVector(F, lanes, inverse.value, sub, size);
    forall data | Survives(F, available, k, m, data, size) ensures shards == data {
      RecoversData(F, available, k, m, rows, inverse.value, data, sub, size, shards);
    }
    output := Some(shards);
  }

  /** The dispatching decoder: vectors from sixteen bytes up where the machine has them, and the
      decoder of cauchy.rs otherwise or when the vector decoder finds the matrix singular.

      It never reports a singular matrix. It panics exactly past 256 shards, for nonempty shards,
      when the vector decoder cannot answer. */
  method DecodeArm(F: Field<Byte>, lanes: Option<nat>, available: seq<Option<Shard>>, k: nat, m: nat) returns (result: Decoded)
    requires ByteField(F) && (lanes.Some? ==> lanes.value > 0) && 1 <= k <= 255 && m <= 255
    requires EqualLengths(available)
    ensures |available| != k + m <==> result == Err(InvalidConfig(k + m, |available|))
    ensures |available| == k + m && |Present(available, k + m)| < k ==>
      result == Err(NotEnoughShards(k, |Present(available, k + m)|))
    ensures |available| == k + m && k <= |Present(available, k + m)| ==>
      var present := Present(available, k + m);
      && !result.Err?
      && (result.Panic? <==>
            && k + m > 256 && !Empty(available)
            && !(lanes.Some? && |available[present[0]].value| >= 16 && Nonsingular(F, SelectedRows(F, k, present[..k]))))
      && (result.Ok? ==> forall data, size | Survives(F, available, k, m, data, size) :: result.data == data)
  {
    if |available| != k + m {
      result := Decode(F, available, k, m, false);
      return;
    }
    var present := FindPresent(available);
    if |present| < k {
      return Err(NotEnoughShards(k, |present|));
    }
    var size := |available[present[0]].value|;
    FirstLength(available, k + m);
    if size == 0 {
      result := Ok(seq(k, i => []));
      EmptyShards(F, available, k, m, result.data);
      return;
    }
    if lanes.Some? && size >= 16 {
      var output := DecodeVector(F, lanes.value, available, k, m, present[..k], size);
      if output.Some? {
        SizeOfWord(F, available, k, m, size);
        return Ok(output.value);
      }
    }
    result := Decode(F, available, k, m, false);
    if k + m <= 256 {
      AnyRowsNonsingular(F, k, m, present[..k]);
    }
  }
}
