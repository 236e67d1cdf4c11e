/**
  The Internet checksum (section 1 of RFC 1071) as TCP, IPv4 and ICMP compute it: with the carry folded in at every
  step, or at the end.
 */
module Checksum {
  import opened Helpers

  type Word = w: int | 0 <= w < 65536

  // ---------------------------------------------------------------- one's-complement sums

  function Sum(words: seq<Word>): nat {
    if words == [] then 0 else Sum(words[..|words| - 1]) + words[|words| - 1]
  }

  /** The 16-bit one's-complement sum of words that add up to `total`. */
  function Ones(total: nat): (w: Word) { if total == 0 then 0 else (total - 1) % 65535 + 1 }

  /** The carry added in, as `(sum >> 16) + (sum & 0xffff)` does. */
  function Fold(sum: nat): nat { sum / 65536 + sum % 65536 }

  lemma {:induction false} FoldKeeps(sum: nat)
    ensures Ones(Fold(sum)) == Ones(sum) && (sum >= 65536 ==> Fold(sum) < sum)
  {
    var high, low := sum / 65536, sum % 65536;
    assert sum == high * 65535 + (high + low);
    if sum > 0 { ModTurns(high + low - 1, high); }
  }

  lemma {:induction false} ModTurns(x: int, k: nat)
    ensures (k * 65535 + x) % 65535 == x % 65535
    decreases k
  {
    if k > 0 {
      ModTurns(x + 65535, k - 1);
      assert (k - 1) * 65535 + (x + 65535) == k * 65535 + x;
    }
  }

  /** A total that is already 16 bits wide is its own sum. */
  lemma {:induction false} OnesSmall(sum: nat)
    requires sum < 65536
    ensures Ones(sum) == sum
  {
  }

  lemma {:induction false} OnesAdd(a: nat, b: nat)
    ensures Ones(Ones(a) + b) == Ones(a + b)
  {
    if a > 0 {
      var k := (a - 1) / 65535;
      assert a == k * 65535 + Ones(a);
      ModTurns(Ones(a) + b - 1, k);
    }
  }

  lemma {:induction false} SumSplit(a: seq<Word>, b: seq<Word>)
    ensures Sum(a + b) == Sum(a) + Sum(b)
  {
    if b == [] {
      assert a + b == a;
    } else {
      SumSplit(a, b[..|b| - 1]);
      assert (a + b)[..|a + b| - 1] == a + b[..|b| - 1];
    }
  }

  lemma {:induction false} SumUpdate(words: seq<Word>, k: nat, w: Word)
    requires k < |words|
    ensures Sum(words[k := w]) == Sum(words) - words[k] + w
  {
    var n := |words| - 1;
    if k < n {
      SumUpdate(words[..n], k, w);
      assert words[k := w][..n] == words[..n][k := w];
    } else {
      assert words[k := w][..n] == words[..n];
    }
  }

  function Pair(high: Byte, low: Byte): Word {
    var h: int := high;
    256 * h + low
  }

  /** Bytes as big-endian words, the last one padded with a zero byte. */
  function Words(bytes: seq<Byte>): seq<Word> {
    if bytes == [] then [] else
    if |bytes| == 1 then [Pair(bytes[0], 0)] else [Pair(bytes[0], bytes[1])] + Words(bytes[2..])
  }

  lemma {:induction false} WordsStep(bytes: seq<Byte>, i: nat)
    requires i % 2 == 0 && i < |bytes|
    ensures i + 1 < |bytes| ==> Words(bytes[..i + 2]) == Words(bytes[..i]) + [Pair(bytes[i], bytes[i + 1])]
    ensures Words(bytes[..i + 1]) == Words(bytes[..i]) + [Pair(bytes[i], 0)]
  {
    if i > 0 {
      WordsStep(bytes[2..], i - 2);
      assert bytes[..i][2..] == bytes[2..][..i - 2];
      assert bytes[..i + 1][2..] == bytes[2..][..i - 1];
      assert i + 1 < |bytes| ==> bytes[..i + 2][2..] == bytes[2..][..i];
    }
  }

  lemma {:induction false} SumStep(bytes: seq<Byte>, i: nat)
    requires i % 2 == 0 && i < |bytes|
    ensures i + 1 < |bytes| ==> Sum(Words(bytes[..i + 2])) == Sum(Words(bytes[..i])) + Pair(bytes[i], bytes[i + 1])
    ensures Sum(Words(bytes[..i + 1])) == Sum(Words(bytes[..i])) + Pair(bytes[i], 0)
  {
    WordsStep(bytes, i);
    var w := Words(bytes[..i]);
    if i + 1 < |bytes| { assert (w + [Pair(bytes[i], bytes[i + 1])])[..|w|] == w; }
    assert (w + [Pair(bytes[i], 0)])[..|w|] == w;
  }

  /** The checksum: the complement of the one's-complement sum. */
  function Checksum(total: nat): (w: Word) { 65535 - Ones(total) }

  /** With its checksum stored in the field that was zero when it was computed, a packet sums to zero; and only then. */
  lemma {:induction false} ChecksumVerifies(words: seq<Word>, k: nat, c: Word)
    requires k < |words| && words[k] == 0
    ensures Checksum(Sum(words[k := Checksum(Sum(words))])) == 0
    ensures Checksum(Sum(words[k := c])) == 0 ==> c % 65535 == Checksum(Sum(words)) % 65535
  {
    var total := Sum(words);
    SumUpdate(words, k, Checksum(total));
    SumUpdate(words, k, c);
    OnesAdd(total, Checksum(total));
    assert Ones(total) + Checksum(total) == 65535;
    if Checksum(Sum(words[k := c])) == 0 {
      OnesAdd(total, c);
      assert Ones(Ones(total) + c) == 65535;
    }
  }

  lemma NoBytes()
    ensures Sum(Words([])) == 0
  {
  }

  // ---------------------------------------------------------------- TCP: the carry folded in at every step

  method AddWords(start: nat, words: seq<Word>, ghost before: nat) returns (sum: nat)
    requires start == Ones(before)
    ensures sum == Ones(before + Sum(words))
  {
    sum := start;
    for i := 0 to |words|
      invariant sum == Ones(before + Sum(words[..i]))
    {
      sum := AddWord(sum, words[i], before + Sum(words[..i]));
      assert words[..i + 1][..i] == words[..i];
    }
    assert words[..|words|] == words;
  }

  method AddWord(start: nat, w: Word, ghost before: nat) returns (sum: nat)
    requires start == Ones(before)
    ensures sum == Ones(before + w)
  {
    sum := start + w;
    OnesAdd(before, w);
    FoldKeeps(start + w);
    if sum > 0xffff {
      sum := sum / 65536 + sum % 65536;
    }
    OnesSmall(sum);
  }

  method AddBytes(start: nat, payload: seq<Byte>, ghost before: nat) returns (sum: nat)
    requires start == Ones(before)
    ensures sum == Ones(before + Sum(Words(payload)))
  {
    hide Ones, Sum, Words, Pair;
    NoBytes();
    sum := start;
    var i: nat := 0;
    assert payload[..0] == [];
    while i + 1 < |payload|
      invariant i % 2 == 0 && i <= |payload| && sum == Ones(before + Sum(Words(payload[..i])))
      decreases |payload| - i
    {
      SumStep(payload, i);
      sum := AddWord(sum, Pair(payload[i], payload[i + 1]), before + Sum(Words(payload[..i])));
      i := i + 2;
    }
    if |payload| % 2 != 0 {
      SumStep(payload, i);
      sum := AddWord(sum, Pair(payload[i], 0), before + Sum(Words(payload[..i])));
      i := i + 1;
    }
    assert payload[..i] == payload;
  }

  /** Pseudo header, header and payload, one after the other. */
  method TcpChecksum(pseudo: seq<Word>, header: seq<Word>, payload: seq<Byte>) returns (c: Word)
    ensures c == Checksum(Sum(pseudo + header + Words(payload)))
  {
    var sum := AddWords(0, pseudo, 0);
    sum := AddWords(sum, header, Sum(pseudo));
    sum := AddBytes(sum, payload, Sum(pseudo) + Sum(header));
    SumSplit(pseudo, header);
    SumSplit(pseudo + header, Words(payload));
    c := 65535 - sum;
  }

  // ---------------------------------------------------------------- IPv4 and ICMP: folded at the end

  method FoldAll(total: nat) returns (sum: nat)
    ensures sum == Ones(total)
  {
    sum := total;
    while sum >= 65536
      invariant Ones(sum) == Ones(total)
      decreases sum
    {
      FoldKeeps(sum);
      sum := sum % 65536 + sum / 65536;
    }
    OnesSmall(sum);
  }

  lemma {:induction false} SumBound(words: seq<Word>)
    ensures Sum(words) <= 65535 * |words|
  {
    if words != [] { SumBound(words[..|words| - 1]); }
  }

  /** The header has ten words. The accumulator never gets a top bit, which the code would merge in differently. */
  method Ipv4Checksum(header: seq<Word>) returns (c: Word)
    requires |header| == 10
    ensures c == Checksum(Sum(header))
  {
    var sum: nat := 0;
    for i := 0 to |header|
      invariant sum == Sum(header[..i])
    {
      sum := sum + header[i];
      assert header[..i + 1][..i] == header[..i];
      SumBound(header[..i + 1]);
      assert sum < 0x8000_0000;
    }
    assert header[..10] == header;
    sum := FoldAll(sum);
    c := 65535 - sum;
  }

  method IcmpChecksum(bytes: seq<Byte>) returns (c: Word)
    requires Sum(Words(bytes)) < MAX
    ensures c == Checksum(Sum(Words(bytes)))
  {
    hide Ones, Sum, Words, Pair;
    NoBytes();
    var sum: nat, i := 0, 0;
    assert bytes[..0] == [];
    while i + 1 < |bytes|
      invariant i % 2 == 0 && 0 <= i <= |bytes| && sum == Sum(Words(bytes[..i]))
      decreases |bytes| - i
    {
      SumStep(bytes, i);
      sum := sum + Pair(bytes[i], bytes[i + 1]);
      i := i + 2;
    }
    if |bytes| % 2 == 1 {
      SumStep(bytes, i);
      sum := sum + Pair(bytes[i], 0);
      i := i + 1;
    }
    assert bytes[..i] == bytes;
    sum := FoldAll(sum);
    c := 65535 - sum;
  }
}
