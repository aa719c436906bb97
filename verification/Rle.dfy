/** The run-length mask decoder (cpp/src/inference.cpp:138-166): pairs of varints, start and length
    of a run of set pixels. */
module Rle {
  import opened Wrappers
  import opened Division

  const U64: int := 0x1_0000_0000_0000_0000

  datatype Run = Run(start: nat, length: nat)

  // ---- reading ----

  // Bytes of the varint data begins with; a varint cut off by the end of the data ends there.
  function VarintSize(data: seq<Byte>): (n: nat)
    ensures n <= |data| && (data != [] ==> n > 0)
  {
    if data == [] then 0 else if data[0] < 128 then 1 else 1 + VarintSize(data[1..])
  }

  // Seven bits a byte, low ones first.
  function VarintValue(data: seq<Byte>): nat {
    if data == [] then 0
    else if data[0] < 128 then data[0]
    else data[0] - 128 + 128 * VarintValue(data[1..])
  }

  // The value as a 64-bit word holds it.
  function Word(data: seq<Byte>): nat { VarintValue(data) % U64 }

  function Skip(data: seq<Byte>): seq<Byte> { data[VarintSize(data)..] }

  function Runs(data: seq<Byte>): seq<Run>
    decreases |data|
  {
    if data == [] then []
    else [Run(Word(data), Word(Skip(data)))] + Runs(Skip(Skip(data)))
  }

  // No varint is longer than ten bytes; a longer one would shift a word by its own width.
  predicate Decodable(data: seq<Byte>)
    decreases |data|
  {
    data == [] || (VarintSize(data) <= 10 && VarintSize(Skip(data)) <= 10 && Decodable(Skip(Skip(data))))
  }

  // The end of a run is a 64-bit sum too.
  predicate Covers(r: Run, k: int) { r.start <= k < (r.start + r.length) % U64 }

  predicate Covered(runs: seq<Run>, k: int) {
    if runs == [] then false else Covers(runs[|runs| - 1], k) || Covered(runs[..|runs| - 1], k)
  }

  lemma {:induction false} CoveredBySome(runs: seq<Run>, k: int)
    ensures Covered(runs, k) <==> exists i | 0 <= i < |runs| :: Covers(runs[i], k)
  {
    if runs != [] {
      var init := runs[..|runs| - 1];
      CoveredBySome(init, k);
      if Covered(init, k) {
        var i :| 0 <= i < |init| && Covers(init[i], k);
        assert Covers(runs[i], k);
      }
      if i :| 0 <= i < |runs| && Covers(runs[i], k) {
        assert i < |init| ==> Covers(init[i], k);
      }
    }
  }

  function Power(j: nat): (p: nat)
    ensures p > 0
  {
    if j == 0 then 1 else 128 * Power(j - 1)
  }

  lemma {:induction false} PowerFits(j: nat)
    requires j < 10
    ensures Power(j) < U64
  {
    if j == 0 {
    } else if j < 9 {
      PowerFits(j - 1);
      PowerGrows(j, 8);
      assert Power(8) == 128 * Power(7) == 128 * 128 * Power(6) == 128 * 128 * 128 * Power(5) == 128 * 128 * 128 * 128 * Power(4);
    } else {
      assert Power(9) == 128 * Power(8) == 128 * 128 * Power(7) == 128 * 128 * 128 * Power(6);
      assert Power(6) == 128 * Power(5) == 128 * 128 * Power(4) == 128 * 128 * 128 * Power(3);
    }
  }

  lemma {:induction false} PowerGrows(i: nat, j: nat)
    requires i <= j
    ensures Power(i) <= Power(j)
  {
    if i < j { PowerGrows(i, j - 1); }
  }

  // The varint at data[pos..]: its word and where it ends. The seven-bit groups fill disjoint bits,
  // so joining them is adding them, in 64 bits.
  method ReadVarint(data: seq<Byte>, pos: nat) returns (val: nat, next: nat)
    requires pos <= |data| && VarintSize(data[pos..]) <= 10
    ensures val == Word(data[pos..]) && next == pos + VarintSize(data[pos..]) && val < U64
  {
    hide VarintValue, VarintSize, Power;
    val, next := 0, pos;
    ghost var j := 0;
    var scale: nat := 1;
    FirstGroup(data[pos..]);
    while next < |data|
      invariant j == next - pos && next <= |data| && val < U64
      invariant VarintSize(data[pos..]) == j + VarintSize(data[next..])
      invariant VarintValue(data[pos..]) % U64 == (val + Power(j) * VarintValue(data[next..])) % U64
      invariant scale == Power(j)
    {
      var b: int := data[next];
      NextGroup(data, next);
      assert j < 10;
      Regroup(val, Power(j), b % 128, if b < 128 then 0 else VarintValue(data[next + 1..]));
      val := (val + (b % 128) * scale) % U64;
      next := next + 1;
      NextPower(j);
      if b < 128 { return; }
      j := j + 1;
      scale := scale * 128;
    }
    assert data[next..] == [];
    FirstGroup([]);
  }

  lemma FirstGroup(data: seq<Byte>)
    ensures Power(0) == 1 && VarintValue([]) == 0 && VarintSize([]) == 0
    ensures VarintValue(data) == 0 + Power(0) * VarintValue(data)
  {
  }

  lemma NextPower(j: nat)
    ensures Power(j + 1) == 128 * Power(j)
  {
  }

  lemma NextGroup(data: seq<Byte>, at: nat)
    requires at < |data|
    ensures VarintSize(data[at..]) == if data[at] < 128 then 1 else 1 + VarintSize(data[at + 1..])
    ensures VarintValue(data[at..]) == data[at] % 128 + 128 * (if data[at] < 128 then 0 else VarintValue(data[at + 1..]))
  {
    assert data[at..][1..] == data[at + 1..];
  }

  lemma Regroup(val: nat, p: nat, digit: nat, rest: nat)
    ensures (val + p * digit) % U64 == (val + digit * p) % U64
    ensures ((val + digit * p) % U64 + (128 * p) * rest) % U64 == (val + p * (digit + 128 * rest)) % U64
  {
    var a, b := val + digit * p, (128 * p) * rest;
    assert p * (digit + 128 * rest) == digit * p + b by {
      assert p * (digit + 128 * rest) == p * digit + p * (128 * rest);
      assert p * (128 * rest) == (128 * p) * rest;
    }
    ModularSum(a, b);
  }

  lemma ModularSum(a: nat, b: nat)
    ensures (a % U64 + b) % U64 == (a + b) % U64
  {
  }

  // ---- the mask ----

  // Every pixel is on when a run of done covers its place or its place lies in from..to.
  ghost predicate Shows(m: array2<Byte>, done: seq<Run>, from: int, to: int)
    reads m
  {
    forall i, j | 0 <= i < m.Length0 && 0 <= j < m.Length1 ::
      m[i, j] == if Covered(done, Index(m.Length1, i, j)) || from <= Index(m.Length1, i, j) < to then 255 else 0
  }

  /** A pixel is 255 exactly when some decoded run covers its index, and 0 otherwise. */
  method ToMask(data: seq<Byte>, w: nat, h: nat) returns (m: array2<Byte>)
    requires Decodable(data)
    ensures fresh(m) && m.Length0 == h && m.Length1 == w
    ensures Shows(m, Runs(data), 0, 0)
  {
    hide Covered, Word, VarintSize, Shows, Runs, Decodable, Skip;
    m := new Byte[h, w]((_, _) => 0);
    var pos := 0;
    ghost var done: seq<Run>, rest := [], data;
    NothingShown(m);
    NoRuns(Runs(data));
    while pos < |data|
      invariant pos <= |data| && rest == data[pos..] && Decodable(rest)
      invariant Runs(data) == done + Runs(rest)
      invariant Shows(m, done, 0, 0)
      decreases |data| - pos
    {
      DecodableStep(rest);
      SkipAhead(data, pos);
      var start, mid := ReadVarint(data, pos);
      SkipAhead(data, mid);
      var length, next := ReadVarint(data, mid);
      FillRun(m, start, length, done);
      RunsStep(done, rest);
      done, rest, pos := done + [Run(start, length)], Skip(Skip(rest)), next;
    }
    assert rest == [];
    NoRuns(done);
  }

  lemma SkipAhead(data: seq<Byte>, pos: nat)
    requires pos <= |data|
    ensures data[pos + VarintSize(data[pos..])..] == Skip(data[pos..])
  {
  }

  lemma NothingShown(m: array2<Byte>)
    requires forall i, j | 0 <= i < m.Length0 && 0 <= j < m.Length1 :: m[i, j] == 0
    ensures Shows(m, [], 0, 0)
  {
  }

  lemma NoRuns(done: seq<Run>)
    ensures [] + done == done == done + Runs([])
  {
  }

  lemma RunsStep(done: seq<Run>, data: seq<Byte>)
    requires data != []
    ensures done + Runs(data) == (done + [Run(Word(data), Word(Skip(data)))]) + Runs(Skip(Skip(data)))
  {
  }

  lemma DecodableStep(data: seq<Byte>)
    requires data != [] && Decodable(data)
    ensures 0 < VarintSize(data) <= 10 && VarintSize(Skip(data)) <= 10 && Decodable(Skip(Skip(data)))
  {
  }

  lemma CoveredAppend(done: seq<Run>, run: Run)
    ensures forall k :: Covered(done + [run], k) <==> Covered(done, k) || Covers(run, k)
  {
    assert (done + [run])[..|done|] == done;
  }

  method FillRun(m: array2<Byte>, start: nat, length: nat, ghost done: seq<Run>)
    requires Shows(m, done, 0, 0)
    modifies m
    ensures Shows(m, done + [Run(start, length)], 0, 0)
  {
    hide Covered, Index;
    var w, h, end := m.Length1, m.Length0, (start + length) % U64;
    CoveredAppend(done, Run(start, length));
    var k := start;
    while k < end
      invariant start <= k && (k <= end || k == start)
      invariant Shows(m, done, start, k)
    {
      if k < w * h {
        PlaceOf(w, h, k);
        SetPlace(m, k, k / w, k % w, start, done);
      } else {
        forall i, j | 0 <= i < h && 0 <= j < w ensures Index(w, i, j) != k { PlaceBelow(w, h, i, j); }
      }
      k := k + 1;
    }
  }

  method SetPlace(m: array2<Byte>, k: nat, row: nat, column: nat, ghost start: nat, ghost done: seq<Run>)
    requires row < m.Length0 && column < m.Length1 && Index(m.Length1, row, column) == k && start <= k
    requires Shows(m, done, start, k)
    modifies m
    ensures Shows(m, done, start, k + 1)
  {
    hide Covered, Index;
    forall i, j | 0 <= i < m.Length0 && 0 <= j < m.Length1 && Index(m.Length1, i, j) == k ensures i == row && j == column {
      SamePlace(m.Length1, i, j, row, column);
    }
    m[row, column] := 255;
  }

  // ---- writing ----

  // Unsigned LEB128, section 7.6 of DWARF version 5.
  function Leb(n: nat): seq<Byte> {
    if n < 128 then [n] else [n % 128 + 128] + Leb(n / 128)
  }

  function Encoded(runs: seq<Run>): seq<Byte> {
    if runs == [] then [] else Leb(runs[0].start) + Leb(runs[0].length) + Encoded(runs[1..])
  }

  lemma {:induction false} LebReadsBack(n: nat, rest: seq<Byte>)
    ensures VarintValue(Leb(n) + rest) == n && VarintSize(Leb(n) + rest) == |Leb(n)|
  {
    if n < 128 {
    } else {
      LebReadsBack(n / 128, rest);
      assert (Leb(n) + rest)[1..] == Leb(n / 128) + rest;
    }
  }

  /** A varint that the end of the data cuts off after j bytes reads as its lowest 7 * j bits. */
  lemma {:induction false} CutOffReads(n: nat, j: nat)
    requires j < |Leb(n)|
    ensures VarintValue(Leb(n)[..j]) == n % Power(j) && VarintSize(Leb(n)[..j]) == j
  {
    if j > 0 {
      CutOffReads(n / 128, j - 1);
      assert Leb(n)[..j] == [n % 128 + 128] + Leb(n / 128)[..j - 1];
      assert Leb(n)[..j][1..] == Leb(n / 128)[..j - 1];
      LowGroups(n, Power(j - 1));
    }
  }

  lemma LowGroups(n: nat, p: nat)
    requires p > 0
    ensures n % (128 * p) == n % 128 + 128 * (n / 128 % p)
  {
    var q, r := n / 128, n % 128;
    var a, b := q / p, q % p;
    assert q == a * p + b && n == 128 * q + r;
    assert n == a * (128 * p) + (128 * b + r) by { assert a * (128 * p) == 128 * (a * p); }
    Unique(n, 128 * p, a, 128 * b + r);
  }

  lemma {:induction false} LebSize(n: nat, j: nat)
    requires j > 0 && n < Power(j)
    ensures |Leb(n)| <= j
  {
    assert Power(j) == 128 * Power(j - 1);
    if n >= 128 {
      LebSize(n / 128, j - 1);
    }
  }

  lemma SixtyFourBitsFit(n: nat)
    requires n < U64
    ensures |Leb(n)| <= 10
  {
    assert Power(10) == 128 * Power(9) == 128 * 128 * Power(8) == 128 * 128 * 128 * Power(7);
    assert Power(7) == 128 * Power(6) == 128 * 128 * Power(5) == 128 * 128 * 128 * Power(4);
    assert Power(4) == 128 * Power(3) == 128 * 128 * Power(2) == 128 * 128 * 128 * Power(1);
    assert Power(1) == 128 * Power(0);
    LebSize(n, 10);
  }

  predicate SixtyFourBit(runs: seq<Run>) {
    forall i | 0 <= i < |runs| :: runs[i].start < U64 && runs[i].length < U64
  }

  /** Encoding any list of 64-bit runs and decoding it gives the list back. */
  lemma {:induction false} RunsReadBack(runs: seq<Run>)
    requires SixtyFourBit(runs)
    ensures Decodable(Encoded(runs)) && Runs(Encoded(runs)) == runs
  {
    if runs != [] {
      RunsReadBack(runs[1..]);
      FirstEncoded(runs);
      hide Encoded, Runs, Decodable, Leb;
      PairReadsBack(runs[0], Encoded(runs[1..]));
      assert runs == [runs[0]] + runs[1..];
    }
  }

  lemma PairReadsBack(r: Run, rest: seq<Byte>)
    requires r.start < U64 && r.length < U64
    ensures var data := Leb(r.start) + (Leb(r.length) + rest);
      Decodable(data) == Decodable(rest) && Runs(data) == [r] + Runs(rest)
  {
    hide Leb, VarintValue, VarintSize, Word, Skip;
    FirstReadsBack(r.start, Leb(r.length) + rest);
    FirstReadsBack(r.length, rest);
  }

  lemma FirstEncoded(runs: seq<Run>)
    requires runs != []
    ensures Encoded(runs) == Leb(runs[0].start) + (Leb(runs[0].length) + Encoded(runs[1..]))
  {
  }

  lemma FirstReadsBack(n: nat, rest: seq<Byte>)
    requires n < U64
    ensures Leb(n) + rest != [] && Word(Leb(n) + rest) == n && VarintSize(Leb(n) + rest) <= 10 && Skip(Leb(n) + rest) == rest
  {
    SixtyFourBitsFit(n);
    LebReadsBack(n, rest);
  }

  /** So encoding and decoding into a mask sets exactly the pixels the runs cover. */
  method DecodeEncoded(runs: seq<Run>, w: nat, h: nat) returns (m: array2<Byte>)
    requires forall i | 0 <= i < |runs| :: runs[i].start + runs[i].length < U64
    ensures m.Length0 == h && m.Length1 == w
    ensures forall i, j | 0 <= i < h && 0 <= j < w :: m[i, j] == if Within(runs, Index(w, i, j)) then 255 else 0
  {
    hide Index, Covered, Runs, Encoded;
    RunsReadBack(runs);
    m := ToMask(Encoded(runs), w, h);
    forall k ensures Covered(runs, k) == Within(runs, k) { CoveredWithin(runs, k); }
  }

  // In plain arithmetic.
  ghost predicate Within(runs: seq<Run>, k: int) {
    exists r | 0 <= r < |runs| :: runs[r].start <= k < runs[r].start + runs[r].length
  }

  lemma CoveredWithin(runs: seq<Run>, k: int)
    requires forall i | 0 <= i < |runs| :: runs[i].start + runs[i].length < U64
    ensures Covered(runs, k) == Within(runs, k)
  {
    CoveredBySome(runs, k);
    hide Covered;
    if Covered(runs, k) {
      var i :| 0 <= i < |runs| && Covers(runs[i], k);
      assert runs[i].start <= k;
    }
    if r :| 0 <= r < |runs| && runs[r].start <= k < runs[r].start + runs[r].length {
      assert Covers(runs[r], k);
    }
  }
}
