/** The internet checksum of section 1 of RFC 1071 as `IcmpPacket.CalcChecksum`
    computes it (src/NetUtilities/SocketPing.cs:140-155), proved equal to the
    RFC's definition: the 16-bit one's-complement of the one's-complement sum
    of the big-endian 16-bit words, an odd trailing byte taken as the high byte
    of a last word. */
module InternetChecksum {
  import opened NetTypes

  // ---------------------------------------------------------------------
  // Reference definition (section 1 of RFC 1071)
  // ---------------------------------------------------------------------

  /** A 16-bit word. */
  type Word = x: nat | x <= 0xFFFF

  /** The big-endian 16-bit words of `data`. */
  function Words(data: seq<byte>): seq<Word>
  {
    if |data| == 0 then []
    else if |data| == 1 then [(data[0] as int) * 0x100]
    else [(data[0] as int) * 0x100 + data[1]] + Words(data[2..])
  }

  /** One's-complement addition: add, then wrap the carry out of bit 15
      back into bit 0. */
  function OnesAdd(a: nat, b: nat): (s: nat)
    requires a <= 0xFFFF && b <= 0xFFFF
    ensures s <= 0xFFFF
    ensures s % 0xFFFF == (a + b) % 0xFFFF
  {
    if a + b > 0xFFFF then a + b - 0xFFFF else a + b
  }

  /** The one's-complement sum of the words, added left to right. */
  function OnesSum(ws: seq<Word>): Word
  {
    if |ws| == 0 then 0 else OnesAdd(OnesSum(ws[..|ws| - 1]), ws[|ws| - 1])
  }

  /** The checksum of section 1 of RFC 1071, as a 16-bit pattern. */
  function Checksum(data: seq<byte>): nat
  {
    0xFFFF - OnesSum(Words(data))
  }

  // ---------------------------------------------------------------------
  // Closed form of the one's-complement sum
  // ---------------------------------------------------------------------

  function Sum(ws: seq<nat>): nat
  {
    if |ws| == 0 then 0 else ws[0] + Sum(ws[1..])
  }

  /** The value an end-around-carry accumulator holds after adding words
      whose plain sum is `t`: 0 only when every word was 0, otherwise the
      member of 1..0xFFFF congruent to `t` modulo 0xFFFF. */
  function OnesFold(t: nat): (s: nat)
    ensures s <= 0xFFFF
    ensures s % 0xFFFF == t % 0xFFFF
    ensures s == 0 <==> t == 0
  {
    if t == 0 then 0 else (t - 1) % 0xFFFF + 1
  }

  lemma {:induction false} SumAppend(a: seq<nat>, b: seq<nat>)
    ensures Sum(a + b) == Sum(a) + Sum(b)
    decreases |a|
  {
    if |a| == 0 {
      assert a + b == b;
    } else {
      assert (a + b)[1..] == a[1..] + b;
      SumAppend(a[1..], b);
    }
  }

  /** The carry fold the code applies after every addition: the low sixteen
      bits of the running sum plus whatever overflowed above them. */
  function Fold(s: nat): (r: nat)
    ensures s <= 0xFFFF ==> r == s
  {
    s % 0x1_0000 + s / 0x1_0000
  }

  /** Adding one word of at most 0xFFFF to a folded accumulator and folding
      once more keeps the closed form. */
  lemma FoldStep(t: nat, x: nat)
    requires x <= 0xFFFF
    ensures Fold(OnesFold(t) + x) == OnesFold(t + x)
    ensures OnesAdd(OnesFold(t), x) == OnesFold(t + x)
  {
    if t > 0 && x > 0 {
      var r := (t - 1) % 0xFFFF;
      if r + x < 0xFFFF {
        NoCarry(t, x);
      } else {
        Carry(t, x);
      }
    }
  }

  /** The word fits beside the accumulator: no carry out of bit 15. */
  lemma NoCarry(t: nat, x: nat)
    requires t > 0 && x <= 0xFFFF && (t - 1) % 0xFFFF + x < 0xFFFF
    ensures OnesFold(t + x) == OnesFold(t) + x
  {
    var q := (t - 1) / 0xFFFF;
    var r := (t - 1) % 0xFFFF;
    assert t + x - 1 == q * 0xFFFF + (r + x);
  }

  /** The word overflows the accumulator: the carry wraps around. */
  lemma Carry(t: nat, x: nat)
    requires t > 0 && x <= 0xFFFF && (t - 1) % 0xFFFF + x >= 0xFFFF
    ensures OnesFold(t + x) == OnesFold(t) + x - 0xFFFF
    ensures Fold(OnesFold(t) + x) == OnesFold(t) + x - 0xFFFF
  {
    var q := (t - 1) / 0xFFFF;
    var r := (t - 1) % 0xFFFF;
    assert t + x - 1 == (q + 1) * 0xFFFF + (r + x - 0xFFFF);
    assert OnesFold(t) + x == 0x1_0000 + (r + x - 0xFFFF);
  }

  /** Adding the words left to right with end-around carry gives the closed
      form of their plain sum, whatever the order of the additions. */
  lemma {:induction false} OnesSumIsFold(ws: seq<Word>)
    ensures OnesSum(ws) == OnesFold(Sum(ws))
    decreases |ws|
  {
    if |ws| > 0 {
      var init := ws[..|ws| - 1];
      OnesSumIsFold(init);
      assert ws == init + [ws[|ws| - 1]];
      SumAppend(init, [ws[|ws| - 1]]);
      assert Sum([ws[|ws| - 1]]) == ws[|ws| - 1];
      FoldStep(Sum(init), ws[|ws| - 1]);
    }
  }

  // ---------------------------------------------------------------------
  // The two passes of CalcChecksum: high bytes, then low bytes
  // ---------------------------------------------------------------------

  /** Sum of the even-indexed bytes below `i`, each weighted as a high byte. */
  function HighBefore(data: seq<byte>, i: nat): nat
    requires i % 2 == 0
  {
    if i == 0 then 0
    else HighBefore(data, i - 2) + (if i - 2 < |data| then (data[i - 2] as int) * 0x100 else 0)
  }

  /** Sum of `data[j]` over the odd indices `j < i`. */
  function LowBefore(data: seq<byte>, i: nat): nat
    requires i % 2 == 1
  {
    if i == 1 then 0
    else LowBefore(data, i - 2) + (if i - 2 < |data| then data[i - 2] else 0)
  }

  /** The word one or two trailing bytes form: an odd last byte is a high
      byte. */
  function TailWord(tail: seq<byte>): nat
    requires 1 <= |tail| <= 2
  {
    (tail[0] as int) * 0x100 + (if |tail| == 2 then tail[1] else 0)
  }

  /** Appending one or two bytes to an even-length prefix adds their word
      to the plain sum. */
  lemma {:induction false} SumWordsSnoc(front: seq<byte>, tail: seq<byte>)
    requires |front| % 2 == 0 && 1 <= |tail| <= 2
    ensures Sum(Words(front + tail)) == Sum(Words(front)) + TailWord(tail)
    decreases |front|
  {
    if |front| == 0 {
      assert front + tail == tail;
      if |tail| == 2 {
        assert Words(tail[2..]) == [];
      }
    } else {
      assert (front + tail)[2..] == front[2..] + tail;
      SumWordsSnoc(front[2..], tail);
    }
  }

  /** For an even prefix length `n`, the plain sum of the words of `data[..n]`
      splits into its high-byte and low-byte parts. */
  lemma {:induction false} SplitPrefix(data: seq<byte>, n: nat)
    requires n % 2 == 0 && n <= |data|
    ensures Sum(Words(data[..n])) == HighBefore(data, n) + LowBefore(data, n + 1)
    decreases n
  {
    if n > 0 {
      SplitPrefix(data, n - 2);
      assert data[..n] == data[..n - 2] + data[n - 2..n];
      SumWordsSnoc(data[..n - 2], data[n - 2..n]);
    }
  }

  /** The plain sum of all the words, split as the two passes accumulate it:
      `hi` and `lo` are the first even and first odd index at or past the end. */
  lemma SplitAll(data: seq<byte>, hi: nat, lo: nat)
    requires hi % 2 == 0 && |data| <= hi <= |data| + 1
    requires lo % 2 == 1 && |data| <= lo <= |data| + 1
    ensures Sum(Words(data)) == HighBefore(data, hi) + LowBefore(data, lo)
  {
    if |data| % 2 == 0 {
      SplitEven(data);
    } else {
      SplitOdd(data);
    }
  }

  /** An even-length packet is its own even prefix. */
  lemma SplitEven(data: seq<byte>)
    requires |data| % 2 == 0
    ensures Sum(Words(data)) == HighBefore(data, |data|) + LowBefore(data, |data| + 1)
  {
    SplitPrefix(data, |data|);
    assert data[..|data|] == data;
  }

  /** An odd-length packet: the trailing byte is the high byte of a last word. */
  lemma SplitOdd(data: seq<byte>)
    requires |data| % 2 == 1
    ensures Sum(Words(data)) == HighBefore(data, |data| + 1) + LowBefore(data, |data|)
  {
    var n := |data|;
    SplitPrefix(data, n - 1);
    assert data == data[..n - 1] + data[n - 1..];
    SumWordsSnoc(data[..n - 1], data[n - 1..]);
  }

  /** `IcmpPacket.CalcChecksum`: two passes, each folding the carry after
      every addition, a final fold, then complement and an `(Int16)` cast. */
  method CalcChecksum(data: seq<byte>) returns (c: int16)
    ensures c % 0x1_0000 == Checksum(data)
  {
    var sum: nat := 0;
    // First pass: every even-indexed byte counts as the high half of a word.
    var i := 0;
    while i < |data|
      invariant i % 2 == 0 && i <= |data| + 1
      invariant sum == OnesFold(HighBefore(data, i))
    {
      FoldStep(HighBefore(data, i), (data[i] as int) * 0x100);
      assert HighBefore(data, i + 2) == HighBefore(data, i) + (data[i] as int) * 0x100;
      sum := sum + (data[i] as int) * 0x100;
      sum := Fold(sum);
      i := i + 2;
    }
    ghost var high := HighBefore(data, i);
    ghost var hi := i;
    // Second pass: every odd-indexed byte counts as the low half of a word.
    i := 1;
    while i < |data|
      invariant i % 2 == 1 && i <= |data| + 1
      invariant sum == OnesFold(high + LowBefore(data, i))
    {
      FoldStep(high + LowBefore(data, i), data[i]);
      assert LowBefore(data, i + 2) == LowBefore(data, i) + data[i];
      sum := sum + data[i];
      sum := Fold(sum);
      i := i + 2;
    }
    // A last fold; it changes nothing once every step has folded.
    sum := Fold(sum);
    SplitAll(data, hi, i);
    OnesSumIsFold(Words(data));
    // Flipping all sixteen bits of a sum at most 0xFFFF subtracts it from
    // 0xFFFF; the pattern is then reinterpreted as a signed 16-bit value.
    c := ToInt16(0xFFFF - sum);
  }

  // ---------------------------------------------------------------------
  // The receiver's check
  // ---------------------------------------------------------------------

  /** Folding in the complement of a folded sum gives all ones. */
  lemma FoldWithComplement(t: nat)
    ensures OnesFold(t + (0xFFFF - OnesFold(t))) == 0xFFFF
  {
    if t > 0 {
      var q := (t - 1) / 0xFFFF;
      var r := (t - 1) % 0xFFFF;
      assert t - 1 == q * 0xFFFF + r;
      assert t + (0xFFFF - (r + 1)) - 1 == q * 0xFFFF + (0xFFFF - 1);
    }
  }

  /** The plain word sum of a packet of at least four bytes, with its
      second word (bytes 2 and 3) set apart. */
  lemma {:induction false} SumWithSecondWord(data: seq<byte>)
    requires |data| >= 4
    ensures Sum(Words(data)) ==
            ((data[0] as int) * 0x100 + data[1]) + ((data[2] as int) * 0x100 + data[3]) + Sum(Words(data[4..]))
  {
    var w0 := (data[0] as int) * 0x100 + data[1];
    var w1 := (data[2] as int) * 0x100 + data[3];
    var rest := Words(data[4..]);
    assert data[2..][2..] == data[4..];
    assert Words(data[2..]) == [w1] + rest;
    assert Words(data) == [w0] + ([w1] + rest);
    SumAppend([w0], [w1] + rest);
    SumAppend([w1], rest);
  }

  /** Section 1 of RFC 1071, receiver side: when the checksum of a packet
      whose bytes 2 and 3 are zero is written big-endian into those bytes,
      the checksum of the completed packet is 0. */
  lemma ChecksumOfCompletedPacket(data: seq<byte>)
    requires |data| >= 4 && data[2] == 0 && data[3] == 0
    ensures var c := Checksum(data);
            Checksum(data[2 := c / 0x100][3 := c % 0x100]) == 0
  {
    var c := Checksum(data);
    var done := data[2 := c / 0x100][3 := c % 0x100];
    assert done[4..] == data[4..];
    assert (c / 0x100) * 0x100 + c % 0x100 == c;
    SumWithSecondWord(data);
    SumWithSecondWord(done);
    assert Sum(Words(done)) == Sum(Words(data)) + c;
    OnesSumIsFold(Words(data));
    OnesSumIsFold(Words(done));
    FoldWithComplement(Sum(Words(data)));
  }
}
