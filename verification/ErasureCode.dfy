/** The coder over GF(2^8): encoding, losing shards and decoding, end to end. */
module ErasureCode {
  import opened Common
  import opened Fields
  import opened GaussJordan
  import opened Gf256Powers
  import opened Gf256
  import opened Codec
  import opened Kernels

  lemma Gf256IsByteField()
    ensures ByteField(GF256)
  {
    Gf256Laws();
    forall a, b | Pair(a, b) ensures GF256.add(a, b) == a ^ b {
      assert GfAdd(a, b) == a ^ b;
    }
  }

  /** How many of the first n flags are set. */
  function Kept(kept: seq<bool>, n: nat): nat
    requires n <= |kept|
  {
    if n == 0 then 0 else Kept(kept, n - 1) + if kept[n - 1] then 1 else 0
  }

  lemma {:induction false} PresentCount(available: seq<Option<Shard>>, kept: seq<bool>, n: nat)
    requires n <= |available| == |kept|
    requires forall i | 0 <= i < |kept| :: available[i].Some? <==> kept[i]
    ensures |Present(available, n)| == Kept(kept, n)
  {
    if n > 0 {
      PresentCount(available, kept, n - 1);
    }
  }

  /** The scalar loop, the matrix encoder of isal.rs or of cauchy.rs, sixteen lanes, or a vector length. */
  datatype Encoder = Portable | IsalEncoder | CauchyEncoder | Lanes16 | Scalable(vl: nat)

  /** The decoder of isal.rs or cauchy.rs, or the dispatching one with the lanes its machine has. */
  datatype Decoder = Isal | CauchyDecoder | Arm(lanes: Option<nat>)

  ghost predicate Sensible(e: Encoder, d: Decoder) {
    (e.Scalable? ==> e.vl >= 16) && (d.Arm? && d.lanes.Some? ==> d.lanes.value > 0)
  }

  /** Every encoder computes the parity shards of the code word. */
  method EncodeWith(F: Field<Byte>, e: Encoder, k: nat, m: nat, data: seq<Shard>, size: nat) returns (parity: seq<Shard>)
    requires ByteField(F) && (e.Scalable? ==> e.vl >= 16)
    requires Shards(data, k, size) && 1 <= k <= 255 && m <= 255 && k + m <= 256
    ensures |parity| == m
    ensures forall row | 0 <= row < m :: parity[row] == CodeShard(F, data, size, k + row)
  {
    match e {
      case Portable => parity := Encode(F, k, m, data, size);
      case IsalEncoder =>
        var shards := EncodeStrict(F, k, m, data, size, true);
        parity := shards.value;
      case CauchyEncoder =>
        var shards := EncodeStrict(F, k, m, data, size, false);
        parity := shards.value;
      case Lanes16 => parity := EncodeNeon(F, k, m, data, size);
      case Scalable(vl) => parity := EncodeSve2(F, vl, k, m, data, size);
    }
  }

  /** Over GF(2^8), with every encoder: a parity byte is the sum of the data bytes times coefficients
      that invert the XOR of the column's and the row's number, counted from one. */
  method EncodeParity(e: Encoder, k: nat, m: nat, data: seq<Shard>, size: nat) returns (parity: seq<Shard>)
    requires e.Scalable? ==> e.vl >= 16
    requires Shards(data, k, size) && 1 <= k <= 255 && m <= 255 && k + m <= 256
    ensures Shards(parity, m, size)
    ensures forall row: nat, b: nat | row < m && b < size :: IsParityByte(data, size, k + row, b, parity[row][b])
  {
    Gf256IsByteField();
    parity := EncodeWith(GF256, e, k, m, data, size);
    forall row: nat, b: nat | row < m && b < size ensures IsParityByte(data, size, k + row, b, parity[row][b]) {
      CodeByteIsParity(data, size, k + row, b);
    }
  }

  /** Whatever coefficients invert the sums of the numbers, the byte is their combination of the data;
      and where only one shard has a byte, the parity byte times that sum is the byte. */
  ghost predicate IsParityByte(data: seq<Shard>, size: nat, i: nat, b: nat, p: Byte)
    requires Shards(data, |data|, size) && b < size
  {
    && (forall c: Row<Byte> | |c| == |data| && Inverts256(c, i) :: p == Combine(GF256, c, data, b, |data|))
    && (forall j: nat | OnlyShard(data, size, b, j) :: GfMul(p, Xor(j, i)) == data[j][b])
  }

  lemma CodeByteIsParity(data: seq<Shard>, size: nat, i: nat, b: nat)
    requires Shards(data, |data|, size) && |data| <= i < 256 && b < size
    ensures IsParityByte(data, size, i, b, CodeShard(GF256, data, size, i)[b])
  {
    Gf256Laws();
    forall c: Row<Byte> | |c| == |data| && Inverts256(c, i)
      ensures CodeShard(GF256, data, size, i)[b] == Combine(GF256, c, data, b, |data|)
    {
      forall j | 0 <= j < |data| ensures GF256.mul(c[j], Apart(GF256, j, i)) == GF256.one {
        ApartIsXor(j, i);
        assert GfMul(c[j], Xor(j, i)) == 1;
      }
      ParityByCoefficients(GF256, data, size, i, b, c);
    }
    forall j: nat | OnlyShard(data, size, b, j) ensures GfMul(CodeShard(GF256, data, size, i)[b], Xor(j, i)) == data[j][b] {
      ApartIsXor(j, i);
      ParityOfOneByte(GF256, data, size, i, b, j);
    }
  }

  lemma ApartIsXor(j: nat, i: nat)
    ensures Apart(GF256, j, i) == Xor(j, i)
  {
  }

  /** The numbers of a column and a row, counted from one in a byte, added. */
  function Xor(j: nat, i: nat): Byte {
    ((j + 1) % 256) as Byte ^ ((i + 1) % 256) as Byte
  }

  ghost predicate Inverts256(c: Row<Byte>, i: nat) {
    forall j | 0 <= j < |c| :: GfMul(c[j], Xor(j, i)) == 1
  }

  /** Only shard j has a nonzero byte at b. */
  ghost predicate OnlyShard(data: seq<Shard>, size: nat, b: nat, j: nat)
    requires Shards(data, |data|, size) && b < size
  {
    j < |data| && forall t | 0 <= t < |data| && t != j :: data[t][b] == 0
  }

  /** Every decoder, on what survives of a code word of at most 256 shards. */
  method DecodeWith(F: Field<Byte>, d: Decoder, available: seq<Option<Shard>>, k: nat, m: nat, ghost data: seq<Shard>, ghost size: nat)
    returns (result: Decoded)
    requires ByteField(F) && (d.Arm? && d.lanes.Some? ==> d.lanes.value > 0)
    requires 1 <= k <= 255 && m <= 255 && k + m <= 256 && Survives(F, available, k, m, data, size)
    ensures if k <= |Present(available, k + m)| then result == Ok(data)
            else result == Err(NotEnoughShards(k, |Present(available, k + m)|))
  {
    match d {
      case Isal => result := Decode(F, available, k, m, true);
      case CauchyDecoder => result := Decode(F, available, k, m, false);
      case Arm(lanes) => result := DecodeArm(F, lanes, available, k, m);
    }
  }

  /** Encode, lose any shards, decode, over any field of bytes. */
  method EncodeLoseDecode(F: Field<Byte>, e: Encoder, d: Decoder, data: seq<Shard>, k: nat, m: nat, size: nat, kept: seq<bool>)
    returns (result: Decoded)
    requires ByteField(F) && Sensible(e, d)
    requires Shards(data, k, size) && 1 <= k <= 255 && m <= 255 && k + m <= 256 && |kept| == k + m
    ensures if k <= Kept(kept, k + m) then result == Ok(data)
            else result == Err(NotEnoughShards(k, Kept(kept, k + m)))
  {
    var parity := EncodeWith(F, e, k, m, data, size);
    var shards := data + parity;
    forall i | 0 <= i < k + m ensures shards[i] == CodeShard(F, data, size, i) {
      if i < k {
        Systematic(F, data, size, i);
      }
    }
    var available := seq(k + m, i requires 0 <= i < k + m => if kept[i] then Some(shards[i]) else None);
    PresentCount(available, kept, k + m);
    result := DecodeWith(F, d, available, k, m, data, size);
  }

  /** Over GF(2^8), with every encoder and every decoder: encode, lose any shards, decode. With k or
      more shards left the data comes back exactly; with fewer the shortage is reported. */
  method RoundTrip(e: Encoder, d: Decoder, data: seq<Shard>, k: nat, m: nat, size: nat, kept: seq<bool>) returns (result: Decoded)
    requires Sensible(e, d)
    requires Shards(data, k, size) && 1 <= k <= 255 && m <= 255 && k + m <= 256 && |kept| == k + m
    ensures if k <= Kept(kept, k + m) then result == Ok(data)
            else result == Err(NotEnoughShards(k, Kept(kept, k + m)))
  {
    Gf256IsByteField();
    result := EncodeLoseDecode(GF256, e, d, data, k, m, size, kept);
  }

  /** Over GF(2^8) with zero inverting to zero, any k shards suffice exactly up to 256 shards; past
      that some k rows of the generator are singular. */
  lemma ExactShardBound(k: nat, m: nat)
    requires 1 <= k <= 255 && m <= 255
    ensures (forall rows | Selection(rows, k, m) :: Nonsingular(GF256, SelectedRows(GF256, k, rows)))
       <==> k + m <= 256
  {
    Gf256Laws();
    RecoverableExactly(GF256, k, m);
  }
}
