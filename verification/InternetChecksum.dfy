// crc32.c, lines 130-156: the Internet checksum of RFC 1071 and RFC 791.
module InternetChecksum {
  import opened Bytes

  // The big-endian words of s added up; an odd last byte is a word's high half.
  function WordSum(s: seq<byte>): nat
    decreases |s|
  {
    if |s| == 0 then 0
    else if |s| == 1 then s[0] as int * 256
    else U16(s, 0) + WordSum(s[2..])
  }

  // while (sum >> 16) sum = (sum & 0xffff) + (sum >> 16)
  function Fold(sum: nat): (r: nat)
    ensures r <= 0xFFFF
    decreases sum
  {
    if sum < 0x10000 then sum else Fold(sum % 0x10000 + sum / 0x10000)
  }

  // ~sum, truncated to 16 bits.
  function Checksum(s: seq<byte>): (r: nat)
    ensures r <= 0xFFFF
  {
    0xFFFF - Fold(WordSum(s))
  }

  lemma {:induction false} WordSumAppend(a: seq<byte>, b: seq<byte>)
    requires |a| % 2 == 0
    ensures WordSum(a + b) == WordSum(a) + WordSum(b)
    decreases |a|
  {
    if a == [] {
      assert a + b == b;
    } else {
      assert (a + b)[2..] == a[2..] + b;
      WordSumAppend(a[2..], b);
    }
  }

  // The C sum is a 64-bit `long` and the count a 32-bit `int`: no addition overflows.
  method ComputeChecksum(buf: array<byte>, at: nat, count0: nat) returns (checksum: nat)
    requires at + count0 <= buf.Length
    requires count0 < 0x8000_0000
    ensures checksum == Checksum(buf[at..at + count0])
  {
    var addr, count, sum := at, count0, 0;
    ghost var s := buf[at..at + count0];
    while count > 1
      invariant 0 <= count <= count0 && addr == at + (count0 - count)
      invariant (count0 - count) % 2 == 0
      invariant 0 <= sum <= (count0 - count) * 0x8000
      invariant sum + WordSum(buf[addr..addr + count]) == WordSum(s)
    {
      assert buf[addr..addr + count][2..] == buf[addr + 2..addr + count];
      sum := sum + (buf[addr] as int * 256 + buf[addr + 1] as int);
      assert sum < 0x8000_0000_0000_0000;
      addr := addr + 2;
      count := count - 2;
    }
    if count > 0 {
      sum := sum + buf[addr] as int * 256;
    }
    while sum / 0x10000 != 0
      invariant 0 <= sum && Fold(sum) == Fold(WordSum(s))
      decreases sum
    {
      sum := sum % 0x10000 + sum / 0x10000;
    }
    checksum := 0xFFFF - sum;
  }

  // ---------- what the fold computes ----------

  lemma Quotient(n: int, q: int, r: int)
    requires n == q * 0xFFFF + r && 0 <= r < 0xFFFF
    ensures n / 0xFFFF == q && n % 0xFFFF == r
  {}

  // Adding a multiple of 65535 keeps the residue.
  lemma SameResidue(n: int, k: int)
    ensures (n + k * 0xFFFF) % 0xFFFF == n % 0xFFFF
  {
    Quotient(n + k * 0xFFFF, n / 0xFFFF + k, n % 0xFFFF);
  }

  // The representative of sum modulo 65535 in 1..65535, except that 0 stays 0.
  lemma {:induction false} FoldValue(sum: nat)
    ensures Fold(sum) == if sum == 0 then 0 else 1 + (sum - 1) % 0xFFFF
    decreases sum
  {
    if sum >= 0x10000 {
      var next := sum % 0x10000 + sum / 0x10000;
      FoldValue(next);
      SameResidue(next - 1, sum / 0x10000);
    }
  }

  lemma FoldCongruent(sum: nat)
    ensures Fold(sum) % 0xFFFF == sum % 0xFFFF
    ensures Fold(sum) == 0 <==> sum == 0
  {
    FoldValue(sum);
    if sum > 0 {
      SameResidue(Fold(sum), (sum - 1) / 0xFFFF);
    }
  }

  // A block verifies exactly when its words are a positive multiple of 65535.
  lemma VerifiesIff(s: seq<byte>)
    ensures Checksum(s) == 0 <==> WordSum(s) > 0 && WordSum(s) % 0xFFFF == 0
  {
    FoldCongruent(WordSum(s));
    if WordSum(s) > 0 {
      assert 1 <= Fold(WordSum(s)) <= 0xFFFF;
      ResidueZero(Fold(WordSum(s)));
    }
  }

  lemma ResidueZero(n: int)
    requires 1 <= n <= 0xFFFF
    ensures n % 0xFFFF == 0 <==> n == 0xFFFF
  {
    if n < 0xFFFF {
      Quotient(n, 0, n);
    } else {
      Quotient(n, 1, 0);
    }
  }

  ghost predicate AllZero(s: seq<byte>) {
    forall i | 0 <= i < |s| :: s[i] == 0
  }

  lemma {:induction false} WordSumZero(s: seq<byte>)
    ensures WordSum(s) == 0 <==> AllZero(s)
    decreases |s|
  {
    if |s| >= 2 {
      WordSumZero(s[2..]);
      assert forall i | 2 <= i < |s| :: s[i] == s[2..][i - 2];
    }
  }

  // The result is 0xFFFF only for a block of zeros.
  lemma ChecksumOnesIff(s: seq<byte>)
    ensures Checksum(s) == 0xFFFF <==> AllZero(s)
  {
    FoldCongruent(WordSum(s));
    WordSumZero(s);
  }

  // A zero pad byte after an odd block changes nothing.
  lemma ChecksumPadded(s: seq<byte>)
    requires |s| % 2 == 1
    ensures Checksum(s + [0]) == Checksum(s)
  {
    var init, last := s[..|s| - 1], s[|s| - 1..];
    assert s == init + last && s + [0] == init + (last + [0]);
    WordSumAppend(init, last);
    WordSumAppend(init, last + [0]);
  }

  // Zeros after a block add nothing, wherever they start.
  lemma {:induction false} WordSumZeros(s: seq<byte>, zeros: seq<byte>)
    requires AllZero(zeros)
    ensures WordSum(s + zeros) == WordSum(s)
    decreases |s|
  {
    if |s| >= 2 {
      assert (s + zeros)[2..] == s[2..] + zeros;
      WordSumZeros(s[2..], zeros);
    } else if |s| == 1 && zeros != [] {
      assert (s + zeros)[2..] == zeros[1..];
      WordSumZero(zeros[1..]);
    } else {
      assert s == [] ==> s + zeros == zeros;
      assert zeros == [] ==> s + zeros == s;
      WordSumZero(zeros);
    }
  }

  // ---------- storing and changing one word ----------

  lemma {:induction false} WordSumPut(s: seq<byte>, at: nat, v: nat)
    requires at % 2 == 0 && at + 2 <= |s| && v < 0x10000
    ensures WordSum(Put(s, at, Be16(v))) == WordSum(s) - U16(s, at) + v
    decreases at
  {
    var r := Put(s, at, Be16(v));
    if at == 0 {
      assert r[2..] == s[2..];
    } else {
      assert r[2..] == Put(s[2..], at - 2, Be16(v));
      WordSumPut(s[2..], at - 2, v);
    }
  }

  // Adding what the fold leaves to 65535 completes the sum to a multiple of 65535.
  lemma FoldCompletes(sum: nat)
    ensures sum + 0xFFFF - Fold(sum) > 0 && (sum + 0xFFFF - Fold(sum)) % 0xFFFF == 0
  {
    hide Fold;
    FoldValue(sum);
    if sum == 0 {
      Quotient(0xFFFF, 1, 0);
    } else {
      Quotient(sum + 0xFFFF - Fold(sum), (sum - 1) / 0xFFFF + 1, 0);
    }
  }

  // Storing the checksum in its zeroed field makes the block verify.
  lemma StoredChecksumVerifies(s: seq<byte>, at: nat)
    requires at % 2 == 0 && at + 2 <= |s| && U16(s, at) == 0
    ensures Checksum(Put(s, at, Be16(Checksum(s)))) == 0
  {
    hide Fold, WordSum, Put, Be16, U16;
    WordSumPut(s, at, Checksum(s));
    FoldCompletes(WordSum(s));
    VerifiesIff(Put(s, at, Be16(Checksum(s))));
  }

  // Which single-word changes a verifying block survives: none but 0x0000 for 0xFFFF
  // or back, and not even that when nothing else in the block is set.
  lemma OneWordChange(s: seq<byte>, at: nat, v: nat)
    requires at % 2 == 0 && at + 2 <= |s| && v < 0x10000
    requires Checksum(s) == 0
    ensures var w := U16(s, at);
            Checksum(Put(s, at, Be16(v))) == 0
            <==> v == w || (w == 0 && v == 0xFFFF) || (w == 0xFFFF && v == 0 && WordSum(s) > 0xFFFF)
  {
    hide Fold, WordSum, Put, Be16, U16, Checksum;
    VerifiesIff(s);
    VerifiesIff(Put(s, at, Be16(v)));
    WordSumPut(s, at, v);
    ShiftedMultiple(WordSum(s), v - U16(s, at));
  }

  // Within 65535 of a multiple of 65535 there are only its two neighbours.
  lemma ShiftedMultiple(n: int, d: int)
    requires n % 0xFFFF == 0 && -0xFFFF <= d <= 0xFFFF
    ensures (n + d) % 0xFFFF == 0 <==> d == 0 || d == 0xFFFF || d == -0xFFFF
  {
    var q := n / 0xFFFF;
    if d == 0xFFFF {
      Quotient(n + d, q + 1, 0);
    } else if d == -0xFFFF {
      Quotient(n + d, q - 1, 0);
    } else if d < 0 {
      Quotient(n + d, q - 1, d + 0xFFFF);
    } else {
      Quotient(n + d, q, d);
    }
  }
}
