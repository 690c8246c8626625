/** The Internet checksum and its use on the IPv4 header. */
module InternetChecksum {

  type Byte = b: nat | b < 256

  const ONES: nat := 65535

  /** The 16-bit words of a buffer, least significant byte first, added up; an odd last byte
      counts as it is. */
  function Sum(bytes: seq<Byte>): nat {
    if |bytes| == 0 then 0
    else if |bytes| == 1 then bytes[0]
    else bytes[0] + 256 * bytes[1] + Sum(bytes[2..])
  }

  /** Adding the carries back until none is left. */
  function Fold(sum: nat): (r: nat)
    ensures r <= ONES
  {
    if sum < 65536 then sum else Fold(sum % 65536 + sum / 65536)
  }

  /** One's complement of the folded sum: RFC 1071, section 1. */
  function Checksum(bytes: seq<Byte>): nat {
    ONES - Fold(Sum(bytes))
  }

  /** Folding is reduction modulo 65535, except that only zero folds to zero. */
  lemma {:induction false} FoldIsModulo(sum: nat)
    ensures Fold(sum) == if sum == 0 then 0 else (sum - 1) % ONES + 1
    decreases sum
  {
    if sum < 65536 {
    } else {
      var next := sum % 65536 + sum / 65536;
      FoldIsModulo(next);
      CarryKeepsResidue(sum, next);
    }
  }

  lemma CarryKeepsResidue(sum: nat, next: nat)
    requires sum >= 65536 && next == sum % 65536 + sum / 65536
    ensures next > 0 && (sum - 1) % ONES == (next - 1) % ONES
  {
    var q := sum / 65536;
    assert sum - 1 == q * ONES + (next - 1);
    SameResidue(next - 1, q);
  }

  lemma SameResidue(x: nat, q: nat)
    ensures (q * ONES + x) % ONES == x % ONES
  {
    assert q * ONES + x == (q + x / ONES) * ONES + x % ONES;
  }

  lemma {:induction false} SumBound(bytes: seq<Byte>)
    ensures Sum(bytes) <= ONES * ((|bytes| + 1) / 2)
  {
    if |bytes| >= 2 {
      SumBound(bytes[2..]);
    }
  }

  /** Each byte times 1 at an even and times 256 at an odd position, added up. */
  function Weighted(bytes: seq<Byte>): nat {
    if |bytes| == 0 then 0
    else Weighted(bytes[..|bytes| - 1]) + (if |bytes| % 2 == 1 then 1 else 256) * (bytes[|bytes| - 1] as nat)
  }

  lemma {:induction false} WeightedShift(a: Byte, b: Byte, rest: seq<Byte>)
    ensures Weighted([a, b] + rest) == a + 256 * b + Weighted(rest)
    decreases |rest|
  {
    var all := [a, b] + rest;
    if rest == [] {
      assert all[..1] == [a] && [a][..0] == [];
      assert Weighted([a]) == a;
    } else {
      assert all[..|all| - 1] == [a, b] + rest[..|rest| - 1];
      WeightedShift(a, b, rest[..|rest| - 1]);
    }
  }

  /** The pairwise sum is the sum by position, an odd last byte included. */
  lemma {:induction false} SumIsWeighted(bytes: seq<Byte>)
    ensures Sum(bytes) == Weighted(bytes)
  {
    if |bytes| == 1 {
      assert bytes[..0] == [];
    } else if |bytes| >= 2 {
      SumIsWeighted(bytes[2..]);
      WeightedShift(bytes[0], bytes[1], bytes[2..]);
      assert bytes == [bytes[0], bytes[1]] + bytes[2..];
    }
  }

  /** The checksum of any buffer: 65535 for nothing but zeros, and otherwise the complement of the
      weighted sum's representative from 1 to 65535 modulo 65535. */
  lemma ChecksumIs(bytes: seq<Byte>)
    ensures var w := Weighted(bytes); Checksum(bytes) == if w == 0 then 65535 else 65534 - (w - 1) % 65535
  {
    SumIsWeighted(bytes);
    FoldIsModulo(Sum(bytes));
  }

  /** Putting a word into a zeroed even position adds exactly that word to the sum. */
  lemma {:induction false} SumWithWord(bytes: seq<Byte>, k: nat, lo: Byte, hi: Byte)
    requires k % 2 == 0 && k + 1 < |bytes| && bytes[k] == 0 && bytes[k + 1] == 0
    ensures Sum(bytes[k := lo][k + 1 := hi]) == Sum(bytes) + lo + 256 * hi
  {
    var with := bytes[k := lo][k + 1 := hi];
    if k == 0 {
      assert with[2..] == bytes[2..];
    } else {
      assert with[2..] == bytes[2..][k - 2 := lo][k - 1 := hi];
      SumWithWord(bytes[2..], k - 2, lo, hi);
    }
  }

  /** Storing the checksum of a buffer in its zeroed field makes the buffer verify. */
  lemma StoredChecksumVerifies(bytes: seq<Byte>, k: nat)
    requires k % 2 == 0 && k + 1 < |bytes| && bytes[k] == 0 && bytes[k + 1] == 0
    ensures var c := Checksum(bytes);
            Checksum(bytes[k := c % 256][k + 1 := c / 256]) == 0
  {
    var s, c := Sum(bytes), Checksum(bytes);
    SumWithWord(bytes, k, c % 256, c / 256);
    var total := s + c;
    FoldIsModulo(s);
    FoldIsModulo(total);
    ComplementCancels(s, c);
  }

  lemma ComplementCancels(s: nat, c: nat)
    requires c == ONES - if s == 0 then 0 else (s - 1) % ONES + 1
    ensures s + c > 0 && (s + c - 1) % ONES == ONES - 1
  {
    if s > 0 {
      var q := (s - 1) / ONES;
      assert s + c - 1 == q * ONES + (ONES - 1);
      SameResidue(ONES - 1, q);
    }
  }

  /** A buffer verifies exactly when its word sum is a positive multiple of 65535. */
  lemma VerifiesIff(bytes: seq<Byte>)
    ensures Checksum(bytes) == 0 <==> Sum(bytes) > 0 && Sum(bytes) % ONES == 0
  {
    var s := Sum(bytes);
    FoldIsModulo(s);
    if s > 0 {
      var q, r := (s - 1) / ONES, (s - 1) % ONES;
      assert s == q * ONES + (r + 1);
      SameResidue(r + 1, q);
    }
  }

  // ----- as computed

  const UINT32: nat := 0x1_0000_0000

  /** `calculate_checksum`: 32-bit accumulation that never overflows for a 16-bit length. */
  method CalculateChecksum(data: seq<Byte>) returns (checksum: nat)
    requires |data| < 65536
    ensures checksum == Checksum(data)
  {
    var sum: nat, length: nat, at: nat := 0, |data|, 0;
    assert data[0..] == data;
    while length > 1
      invariant at + length == |data| && at % 2 == 0
      invariant sum + Sum(data[at..]) == Sum(data)
      decreases length
    {
      var word: nat := data[at] as nat + 256 * data[at + 1] as nat;
      SumBound(data);
      assert data[at..][2..] == data[at + 2..];
      assert sum + word <= Sum(data) < UINT32;
      sum := (sum + word) % UINT32;
      at := at + 2;
      length := length - 2;
    }
    if length > 0 {
      SumBound(data);
      assert sum + data[at] < UINT32;
      sum := (sum + data[at]) % UINT32;
    }
    assert length == 0 ==> data[at..] == [];
    assert sum == Sum(data);
    while sum >= 65536
      invariant Fold(sum) == Fold(Sum(data))
      decreases sum
    {
      sum := sum % 65536 + sum / 65536;
    }
    checksum := ONES - sum;
  }

  const HEADER_BYTES: nat := 20
  const CHECKSUM_AT: nat := 10

  /** The header sealing of `tcp_send_packet`: zero the field, compute, store. A receiver that
      recomputes the checksum over the header gets 0. */
  method SealHeader(header: array<Byte>)
    requires header.Length == HEADER_BYTES
    modifies header
    ensures Checksum(header[..]) == 0
    ensures forall i :: 0 <= i < HEADER_BYTES && i != CHECKSUM_AT && i != CHECKSUM_AT + 1 ==> header[i] == old(header[i])
  {
    header[CHECKSUM_AT], header[CHECKSUM_AT + 1] := 0, 0;
    ghost var zeroed: seq<Byte> := header[..];
    var c := CalculateChecksum(header[..]);
    StoredChecksumVerifies(zeroed, CHECKSUM_AT);
    var lo: Byte, hi: Byte := c % 256, c / 256;
    header[CHECKSUM_AT], header[CHECKSUM_AT + 1] := lo, hi;
    assert header[..] == zeroed[CHECKSUM_AT := lo][CHECKSUM_AT + 1 := hi];
  }
}
