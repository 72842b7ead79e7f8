/** A minimal big-endian encoding of a non-negative integer as bytes, built
    on Python's int.bit_length and int.to_bytes(length, "big"). */
module ByteEncoding {
  import opened NumberTheory

  newtype byte = b: int | 0 <= b < 256

  /** The outcome of a Python call that may raise. */
  datatype Result<T> = Ok(value: T) | Err(error: string)

  /** int.bit_length for n >= 0: the number of binary digits, 0 for 0.
      For n >= 1 it is the b with 2^(b - 1) <= n < 2^b. */
  function BitLength(n: nat): (b: nat)
    ensures b == 0 <==> n == 0
    ensures n >= 1 ==> Pow(2, b - 1) <= n < Pow(2, b)
    decreases n
  {
    if n == 0 then 0 else 1 + BitLength(n / 2)
  }

  /** int.from_bytes(bs, "big"): the bytes read as base-256 digits, most
      significant first. */
  function FromBytesBE(bs: seq<byte>): nat
    decreases |bs|
  {
    if bs == [] then 0 else FromBytesBE(bs[..|bs| - 1]) * 256 + bs[|bs| - 1] as nat
  }

  /** The low `length` base-256 digits of n, most significant first. */
  function ToBytesBE(n: nat, length: nat): seq<byte>
    decreases length
  {
    if length == 0 then [] else ToBytesBE(n / 256, length - 1) + [(n % 256) as byte]
  }

  /** int.to_bytes(length, "big") with the default signed=False: raises
      OverflowError for a negative n and for an n that does not fit in
      `length` bytes. */
  function IntToBytes(n: int, length: nat): (r: Result<seq<byte>>)
    ensures r.Ok? <==> 0 <= n < Pow(256, length)
    ensures r.Ok? ==> |r.value| == length && FromBytesBE(r.value) == n
  {
    if n < 0 then Err("can't convert negative int to unsigned")
    else if n >= Pow(256, length) then Err("int too big to convert")
    else
      ToBytesRoundTrip(n, length);
      Ok(ToBytesBE(n, length))
  }

  /** Lines 4-8: b"\x00" for 0, otherwise n in ceil(bit_length / 8) bytes,
      big-endian. */
  function LongToBytes(n: int): (r: Result<seq<byte>>)
    ensures r.Ok? <==> n >= 0
    ensures r.Ok? ==> |r.value| >= 1 && FromBytesBE(r.value) == n
  {
    if n == 0 then
      assert [0 as byte][..0] == [];
      Ok([0])
    else
      var length := (BitLength(if n < 0 then -n else n) + 7) / 8;
      ByteLengthBounds(if n < 0 then -n else n);
      IntToBytes(n, length)
  }

  lemma {:induction false} ToBytesRoundTrip(n: nat, length: nat)
    requires n < Pow(256, length)
    ensures |ToBytesBE(n, length)| == length
    ensures FromBytesBE(ToBytesBE(n, length)) == n
    decreases length
  {
    if length > 0 {
      DivBelow(n, 256, Pow(256, length - 1));
      ToBytesRoundTrip(n / 256, length - 1);
      var bs := ToBytesBE(n, length);
      assert bs[..|bs| - 1] == ToBytesBE(n / 256, length - 1);
    }
  }

  /** The digits read back to at most 256^|bs| - 1. */
  lemma {:induction false} FromBytesBound(bs: seq<byte>)
    ensures FromBytesBE(bs) < Pow(256, |bs|)
    decreases |bs|
  {
    if bs != [] {
      var init := bs[..|bs| - 1];
      FromBytesBound(init);
      MulLe(FromBytesBE(init) + 1, Pow(256, |init|), 256);
    }
  }

  /** Reading the first byte on its own: bs[0] * 256^(|bs| - 1) plus the
      rest. */
  lemma {:induction false} FromBytesFront(bs: seq<byte>)
    requires bs != []
    ensures FromBytesBE(bs) == bs[0] as nat * Pow(256, |bs| - 1) + FromBytesBE(bs[1..])
    decreases |bs|
  {
    if |bs| > 1 {
      var init := bs[..|bs| - 1];
      FromBytesFront(init);
      assert init[1..] == bs[1..][..|bs| - 2];
      calc {
        FromBytesBE(bs);
        FromBytesBE(init) * 256 + bs[|bs| - 1] as nat;
        (bs[0] as nat * Pow(256, |bs| - 2) + FromBytesBE(init[1..])) * 256 + bs[|bs| - 1] as nat;
        { MulAssoc(bs[0] as nat, Pow(256, |bs| - 2), 256); }
        bs[0] as nat * Pow(256, |bs| - 1) + (FromBytesBE(bs[1..][..|bs| - 2]) * 256 + bs[|bs| - 1] as nat);
      }
    } else {
      assert bs[..0] == [] && bs[1..] == [];
    }
  }

  /** Encoding the value of a byte string in as many bytes gives the string
      back. */
  lemma {:induction false} ToBytesOfFromBytes(bs: seq<byte>)
    ensures ToBytesBE(FromBytesBE(bs), |bs|) == bs
    decreases |bs|
  {
    if bs != [] {
      var init := bs[..|bs| - 1];
      ToBytesOfFromBytes(init);
      DivModUnique(FromBytesBE(bs), 256, FromBytesBE(init), bs[|bs| - 1] as int);
    }
  }

  lemma {:induction false} PowTwoEight(k: nat)
    ensures Pow(2, 8 * k) == Pow(256, k)
    decreases k
  {
    if k > 0 {
      PowTwoEight(k - 1);
      PowAdd(2, 8, 8 * (k - 1));
      assert Pow(2, 8) == 256;
    }
  }

  /** ceil(bit_length(n) / 8) is the number of base-256 digits of n >= 1. */
  lemma ByteLengthBounds(n: nat)
    requires n >= 1
    ensures var length := (BitLength(n) + 7) / 8;
      length >= 1 && Pow(256, length - 1) <= n < Pow(256, length)
  {
    var b := BitLength(n);
    var length := (b + 7) / 8;
    PowMonotone(2, b, 8 * length);
    PowMonotone(2, 8 * (length - 1), b - 1);
    PowTwoEight(length);
    PowTwoEight(length - 1);
  }

  /** Conversely, an n with `length` base-256 digits has
      ceil(bit_length(n) / 8) == length. */
  lemma ByteLengthOf(n: nat, length: nat)
    requires length >= 1 && Pow(256, length - 1) <= n < Pow(256, length)
    ensures (BitLength(n) + 7) / 8 == length
  {
    assert n >= 1;
    var b := BitLength(n);
    PowTwoEight(length);
    PowTwoEight(length - 1);
    if b <= 8 * (length - 1) {
      PowMonotone(2, b, 8 * (length - 1));
    }
    if b > 8 * length {
      PowMonotone(2, 8 * length, b - 1);
    }
  }

  /** A byte string reads as at least 256^(|bs| - 1) exactly when its first
      byte is not zero. */
  lemma LeadingByte(bs: seq<byte>)
    requires bs != []
    ensures bs[0] != 0 <==> FromBytesBE(bs) >= Pow(256, |bs| - 1)
  {
    FromBytesFront(bs);
    FromBytesBound(bs[1..]);
    if bs[0] != 0 {
      MulLe(1, bs[0] as nat, Pow(256, |bs| - 1));
    }
  }

  /** What long_to_bytes promises: for n >= 0 it succeeds with a non-empty
      big-endian string of ceil(bit_length(n) / 8) bytes (one zero byte for
      0) that reads back as n and, for n > 0, has no leading zero byte; for
      n < 0 it raises. */
  lemma LongToBytesSpec(n: int)
    ensures LongToBytes(n).Ok? <==> n >= 0
    ensures n > 0 ==> |LongToBytes(n).value| == (BitLength(n) + 7) / 8
    ensures n == 0 ==> LongToBytes(n) == Ok([0])
    ensures n >= 0 ==> |LongToBytes(n).value| >= 1 && FromBytesBE(LongToBytes(n).value) == n
    ensures n > 0 ==> LongToBytes(n).value[0] != 0
  {
    if n > 0 {
      var length := (BitLength(n) + 7) / 8;
      ByteLengthBounds(n);
      var r := IntToBytes(n, length);
      assert LongToBytes(n) == r;
      LeadingByte(r.value);
    } else if n < 0 {
      assert LongToBytes(n) == IntToBytes(n, (BitLength(-n) + 7) / 8);
    } else {
      assert FromBytesBE([0]) == FromBytesBE([]) * 256 + 0 by {
        assert [0 as byte][..0] == [];
      }
    }
  }

  /** The other direction of the round trip: a byte string with no leading
      zero byte (or the single zero byte) is what long_to_bytes gives for
      its value. */
  lemma FromBytesRoundTrip(bs: seq<byte>)
    requires bs != [] && (bs[0] != 0 || bs == [0])
    ensures LongToBytes(FromBytesBE(bs)) == Ok(bs)
  {
    var n := FromBytesBE(bs);
    LongToBytesSpec(n);
    var value := LongToBytes(n).value;
    if bs == [0] {
      assert bs[..0] == [];
    } else {
      LeadingByte(bs);
      FromBytesBound(bs);
      ByteLengthOf(n, |bs|);
      ToBytesOfFromBytes(bs);
      ToBytesOfFromBytes(value);
    }
  }
}
