/** Decoding the kernel's shared-cpu map: comma-separated hexadecimal words, most significant
    first, the first one possibly short. */
module CpuMap {
  import opened Common

  const SIBLINGS: nat := 256

  // --------------------------------------------------------------------------
  // Text and words
  // --------------------------------------------------------------------------

  predicate IsHexDigit(c: char) {
    '0' <= c <= '9' || 'a' <= c <= 'f' || 'A' <= c <= 'F'
  }

  function DigitValue(c: char): nat
    requires IsHexDigit(c)
    ensures DigitValue(c) < 16
  {
    if '0' <= c <= '9' then c as int - '0' as int
    else if 'a' <= c <= 'f' then c as int - 'a' as int + 10
    else c as int - 'A' as int + 10
  }

  function Digit(v: nat): (c: char)
    requires v < 16
    ensures IsHexDigit(c) && DigitValue(c) == v
  {
    if v < 10 then ('0' as int + v) as char else ('a' as int + v - 10) as char
  }

  predicate IsWord(s: string) {
    1 <= |s| <= 8 && forall i | 0 <= i < |s| :: IsHexDigit(s[i])
  }

  function HexValue(s: string): nat
    requires forall i | 0 <= i < |s| :: IsHexDigit(s[i])
  {
    if s == "" then 0 else 16 * HexValue(s[..|s| - 1]) + DigitValue(s[|s| - 1])
  }

  function Pow2(n: nat): (r: nat)
    ensures r > 0
  {
    if n == 0 then 1 else 2 * Pow2(n - 1)
  }

  function Pow16(n: nat): (r: nat)
    ensures r > 0
  {
    if n == 0 then 1 else 16 * Pow16(n - 1)
  }

  /** The words of a map: all have eight digits but the first, which may have fewer. */
  predicate WellFormed(words: seq<string>) {
    && (forall i | 0 <= i < |words| :: IsWord(words[i]))
    && (forall i | 0 < i < |words| :: |words[i]| == 8)
  }

  function Join(words: seq<string>): string {
    if words == [] then "" else if |words| == 1 then words[0] else words[0] + "," + Join(words[1..])
  }

  /** The decoder's word count, from the length of the text alone. */
  lemma {:induction false} WordCount(words: seq<string>)
    requires WellFormed(words)
    ensures (|Join(words)| + 8) / 9 == |words|
    ensures words != [] ==> |Join(words)| == |words[0]| + 9 * (|words| - 1)
  {
    if |words| > 1 {
      assert forall i | 0 <= i < |words[1..]| :: words[1..][i] == words[i + 1];
      WordCount(words[1..]);
    }
  }

  predicate Bit(v: nat, bit: nat) {
    v / Pow2(bit) % 2 == 1
  }

  /** Processor p is in the map: bit p mod 32 of word p div 32, counted from the last word. */
  predicate InMap(words: seq<string>, p: nat)
    requires WellFormed(words)
  {
    p < 32 * |words| && Bit(HexValue(words[|words| - 1 - p / 32]), p % 32)
  }

  // --------------------------------------------------------------------------
  // Printing and reading a word
  // --------------------------------------------------------------------------

  function PrintWord(v: nat, width: nat): (s: string)
    ensures |s| == width && forall i | 0 <= i < |s| :: IsHexDigit(s[i])
  {
    if width == 0 then "" else PrintWord(v / 16, width - 1) + [Digit(v % 16)]
  }

  lemma {:induction false} PrintThenRead(v: nat, width: nat)
    requires v < Pow16(width)
    ensures HexValue(PrintWord(v, width)) == v
  {
    if width > 0 {
      var s := PrintWord(v, width);
      assert s[..|s| - 1] == PrintWord(v / 16, width - 1);
      PrintThenRead(v / 16, width - 1);
    }
  }

  lemma {:induction false} HexValueBound(s: string)
    requires forall i | 0 <= i < |s| :: IsHexDigit(s[i])
    ensures HexValue(s) < Pow16(|s|)
  {
    if s != "" { HexValueBound(s[..|s| - 1]); }
  }

  /** A word fits 32 bits, so the decoder's truncation changes nothing. */
  lemma WordFits(s: string)
    requires IsWord(s)
    ensures HexValue(s) < UINT32_RANGE
  {
    HexValueBound(s);
    PowGrows(|s|, 8);
    assert Pow16(8) == 16 * 16 * 16 * 16 * Pow16(4);
    assert Pow16(4) == 65536;
  }

  lemma {:induction false} PowGrows(m: nat, n: nat)
    requires m <= n
    ensures Pow16(m) <= Pow16(n)
  {
    if m < n { PowGrows(m, n - 1); }
  }

  /** The printer: the first word in `width` digits, the others in eight. */
  function PrintMap(values: seq<nat>, width: nat): seq<string> {
    seq(|values|, i requires 0 <= i < |values| => PrintWord(values[i], if i == 0 then width else 8))
  }

  /** Decoding a printed map gives back the bits of the words printed. */
  lemma PrintedMapReadsBack(values: seq<nat>, width: nat, p: nat)
    requires 1 <= width <= 8
    requires forall i | 0 <= i < |values| :: values[i] < Pow16(if i == 0 then width else 8)
    ensures WellFormed(PrintMap(values, width))
    ensures InMap(PrintMap(values, width), p) <==>
            p < 32 * |values| && Bit(values[|values| - 1 - p / 32], p % 32)
  {
    if p < 32 * |values| {
      var i := |values| - 1 - p / 32;
      PrintThenRead(values[i], if i == 0 then width else 8);
    }
  }

  // --------------------------------------------------------------------------
  // The map of a set of processors
  // --------------------------------------------------------------------------

  /** The low bits of word k: the sum of 2^b over the processors 32 k + b of the set. */
  function WordOf(procs: set<nat>, k: nat, bits: nat): nat {
    if bits == 0 then 0
    else WordOf(procs, k, bits - 1) + if 32 * k + bits - 1 in procs then Pow2(bits - 1) else 0
  }

  /** The kernel's text for a set of processors: n words, the one of the highest processors first. */
  function PrintSet(procs: set<nat>, n: nat, width: nat): seq<string> {
    PrintMap(seq(n, i requires 0 <= i < n => WordOf(procs, n - 1 - i, 32)), width)
  }

  lemma {:induction false} WordBound(procs: set<nat>, k: nat, bits: nat)
    ensures WordOf(procs, k, bits) < Pow2(bits)
  {
    if bits > 0 { WordBound(procs, k, bits - 1); }
  }

  lemma Regroup(x: nat, y: nat)
    ensures 2 * (x * y) == (2 * x) * y
  {
  }

  lemma {:induction false} PowSplit(m: nat, n: nat)
    ensures Pow2(m + n) == Pow2(m) * Pow2(n)
  {
    if m > 0 {
      PowSplit(m - 1, n);
      Regroup(Pow2(m - 1), Pow2(n));
      assert Pow2(m) == 2 * Pow2(m - 1) && Pow2(m + n) == 2 * Pow2(m - 1 + n);
    }
  }

  /** A higher bit does not touch a lower one. */
  lemma HigherBit(v: nat, high: nat, b: nat)
    requires b < high
    ensures Bit(v + Pow2(high), b) <==> Bit(v, b)
  {
    hide Pow2;
    PowSplit(b, high - b);
    PowTwice(high - b);
    ShiftedBit(v, Pow2(b), Pow2(high - b), Pow2(high - b - 1));
  }

  lemma PowTwice(n: nat)
    requires n > 0
    ensures Pow2(n) == 2 * Pow2(n - 1)
  {
  }

  lemma ShiftedBit(v: nat, d: nat, e: nat, q: nat)
    requires d > 0 && e == 2 * q
    ensures (v + d * e) / d % 2 == v / d % 2
  {
    QuotientShift(v, d, e);
    EvenShift(v / d, q);
  }

  lemma EvenShift(x: nat, q: nat)
    ensures (x + 2 * q) % 2 == x % 2
  {
  }

  lemma QuotientShift(v: nat, d: nat, q: nat)
    requires d > 0
    ensures (v + d * q) / d == v / d + q
  {
    var k := v / d;
    assert v == d * k + v % d;
    assert d * k + d * q == d * (k + q);
    QuotientIs(v + d * q, d, k + q, v % d);
  }

  lemma QuotientIs(x: nat, d: nat, q: nat, r: nat)
    requires d > 0 && x == d * q + r && r < d
    ensures x / d == q
  {
    ScaleBound(x / d - q, d);
    assert x == d * (x / d) + x % d;
    assert (x / d - q) * d == d * (x / d) - d * q;
  }

  /** Bit b of word k is set exactly for a processor of the set. */
  lemma {:induction false} WordBits(procs: set<nat>, k: nat, bits: nat, b: nat)
    requires b < bits
    ensures Bit(WordOf(procs, k, bits), b) <==> 32 * k + b in procs
  {
    var low := WordOf(procs, k, bits - 1);
    WordBound(procs, k, bits - 1);
    if b < bits - 1 {
      WordBits(procs, k, bits - 1, b);
      HigherBit(low, bits - 1, b);
    } else {
      QuotientIs(low, Pow2(b), 0, low);
      QuotientIs(low + Pow2(b), Pow2(b), 1, low);
    }
  }

  lemma WordWidth(procs: set<nat>, k: nat)
    ensures WordOf(procs, k, 32) < Pow16(8)
  {
    WordBound(procs, k, 32);
    PowersAgree(8);
  }

  lemma {:induction false} PowersAgree(n: nat)
    ensures Pow16(n) == Pow2(4 * n)
  {
    if n > 0 {
      PowersAgree(n - 1);
      PowSplit(4, 4 * n - 4);
      assert Pow2(4) == 2 * Pow2(3) && Pow2(3) == 8;
    }
  }

  /** Decoding inverts printing: a processor is in the map printed for a set exactly if it is in the set. */
  lemma PrintedSetReadsBack(procs: set<nat>, n: nat, width: nat, p: nat)
    requires 1 <= width <= 8 && (forall q | q in procs :: q < 32 * n)
    requires n > 0 ==> WordOf(procs, n - 1, 32) < Pow16(width)
    ensures WellFormed(PrintSet(procs, n, width))
    ensures InMap(PrintSet(procs, n, width), p) <==> p in procs
  {
    hide InMap, Bit, WordOf, Pow16, PrintMap, WellFormed;
    var values := seq(n, i requires 0 <= i < n => WordOf(procs, n - 1 - i, 32));
    forall i | 0 <= i < |values| ensures values[i] < Pow16(if i == 0 then width else 8) { WordWidth(procs, n - 1 - i); }
    PrintedMapReadsBack(values, width, p);
    if p < 32 * n {
      WordBits(procs, p / 32, 32, p % 32);
      assert values[n - 1 - p / 32] == WordOf(procs, p / 32, 32);
    }
  }

  // --------------------------------------------------------------------------
  // The decoder
  // --------------------------------------------------------------------------

  /** The next comma-free token at or after `pos`, leading separators skipped, and the position just
      past its own separator. */
  method NextToken(text: string, pos: nat, ghost lead: nat, ghost word: string, ghost rest: string)
    returns (token: string, next: nat)
    requires pos + lead <= |text| && text[pos + lead..] == word + rest && word != ""
    requires forall i | pos <= i < pos + lead :: text[i] == ','
    requires (forall i | 0 <= i < |word| :: word[i] != ',') && (rest == "" || rest[0] == ',')
    ensures token == word && next == pos + lead + |word| + (if rest == "" then 0 else 1)
  {
    ghost var at := pos + lead;
    assert |text| == at + |word| + |rest|;
    assert forall i | at <= i < |text| :: text[i] == (word + rest)[i - at];
    var start := pos;
    while start < |text| && text[start] == ','
      invariant pos <= start <= at
    {
      start := start + 1;
    }
    var end := start;
    while end < |text| && text[end] != ','
      invariant start == at <= end <= at + |word|
    {
      end := end + 1;
    }
    token := text[start..end];
    assert token == text[at..][..end - at] == word;
    next := if end < |text| then end + 1 else end;
  }

  /** The processors seen so far: those from `from` up, and those in [low, high). */
  predicate Seen(p: nat, from: nat, low: nat, high: nat) {
    p >= from || low <= p < high
  }

  ghost predicate Marks(words: seq<string>, cpuinfo: seq<nat>, p: nat, a: nat)
    requires WellFormed(words)
  {
    InMap(words, p) && p < |cpuinfo| && cpuinfo[p] == a
  }

  ghost predicate SeenMark(words: seq<string>, cpuinfo: seq<nat>, a: nat, from: nat, low: nat, high: nat)
    requires WellFormed(words)
  {
    exists p: nat :: Seen(p, from, low, high) && Marks(words, cpuinfo, p, a)
  }

  /** The sibling map holds a 1 for the APIC ids of the processors seen. */
  ghost predicate Marked(words: seq<string>, cpuinfo: seq<nat>, was: seq<nat>, now: seq<nat>, from: nat, low: nat, high: nat)
    requires WellFormed(words)
  {
    && |now| == |was|
    && forall a | 0 <= a < |was| :: now[a] == if SeenMark(words, cpuinfo, a, from, low, high) then 1 else was[a]
  }

  /** Only which processors are seen matters, not how that is said. */
  lemma MarkedSame(words: seq<string>, cpuinfo: seq<nat>, was: seq<nat>, now: seq<nat>,
                   from: nat, low: nat, high: nat, from': nat, low': nat, high': nat)
    requires WellFormed(words) && Marked(words, cpuinfo, was, now, from, low, high)
    requires forall p: nat :: Seen(p, from, low, high) <==> Seen(p, from', low', high')
    ensures Marked(words, cpuinfo, was, now, from', low', high')
  {
  }

  /** One more processor. */
  lemma MarkStep(words: seq<string>, cpuinfo: seq<nat>, was: seq<nat>, now: seq<nat>, from: nat, low: nat, p: nat)
    requires WellFormed(words) && low <= p && Marked(words, cpuinfo, was, now, from, low, p)
    requires InMap(words, p) ==> p < |cpuinfo|
    ensures |now| == |was|
    ensures Marked(words, cpuinfo, was, if InMap(words, p) && cpuinfo[p] < |now| then now[cpuinfo[p] := 1] else now,
                   from, low, p + 1)
  {
    hide InMap;
    var next := if InMap(words, p) && cpuinfo[p] < |now| then now[cpuinfo[p] := 1] else now;
    forall a | 0 <= a < |was| ensures next[a] == if SeenMark(words, cpuinfo, a, from, low, p + 1) then 1 else was[a] {
      if Marks(words, cpuinfo, p, a) {
        assert Seen(p, from, low, p + 1);
      } else {
        assert forall q: nat | Marks(words, cpuinfo, q, a) :: Seen(q, from, low, p + 1) <==> Seen(q, from, low, p);
        assert SeenMark(words, cpuinfo, a, from, low, p + 1) <==> SeenMark(words, cpuinfo, a, from, low, p);
      }
    }
  }

  /** Decode `text`: exactly the in-range APIC ids of the processors in the map are marked. */
  method CpumapToCpuCi(text: string, cpuinfo: seq<nat>, siblings: array<nat>, ghost words: seq<string>)
    requires WellFormed(words) && text == Join(words) && siblings.Length == SIBLINGS
    requires forall p: nat | InMap(words, p) :: p < |cpuinfo|
    modifies siblings
    ensures forall a | 0 <= a < SIBLINGS ::
              siblings[a] == if exists p: nat :: Marks(words, cpuinfo, p, a) then 1 else old(siblings[a])
  {
    hide InMap, Join, Marked, Marks, HexValue;
    ghost var was := siblings[..];
    var numHexs: nat := (|text| + 8) / 9;
    WordCount(words);
    MarkNone(words, cpuinfo, was);
    var pos: nat := 0;
    assert text[0..] == text && words[0..] == words;
    ghost var done: nat := 0;
    while numHexs > 0
      invariant done + numHexs == |words| && pos <= |text| && text[pos..] == Join(words[done..])
      invariant Marked(words, cpuinfo, was, siblings[..], 32 * numHexs, 0, 0)
    {
      numHexs := numHexs - 1;
      JoinHead(words, done);
      var token, next := NextToken(text, pos, 0, words[done], if done + 1 < |words| then "," + Join(words[done + 1..]) else "");
      JoinTail(words, done, text, pos, next);
      var mask := HexValue(token) % UINT32_RANGE;
      WordFits(token);
      MarkedSame(words, cpuinfo, was, siblings[..], 32 * (numHexs + 1), 0, 0, 32 * (numHexs + 1), 32 * numHexs, 32 * numHexs);
      MarkWord(words, cpuinfo, siblings, was, done, numHexs, mask);
      pos := next;
      done := done + 1;
    }
    JoinDone(words, cpuinfo, was, siblings[..]);
  }

  /** From a set of processors through its text to the siblings: exactly the in-range APIC ids of the set's
      processors are marked. */
  method PrintThenDecode(procs: set<nat>, n: nat, width: nat, cpuinfo: seq<nat>, siblings: array<nat>)
    requires 1 <= width <= 8 && (forall p | p in procs :: p < 32 * n && p < |cpuinfo|)
    requires n > 0 ==> WordOf(procs, n - 1, 32) < Pow16(width)
    requires siblings.Length == SIBLINGS
    modifies siblings
    ensures forall a | 0 <= a < SIBLINGS ::
              siblings[a] == if exists p :: HasApicId(procs, cpuinfo, p, a) then 1 else old(siblings[a])
  {
    hide InMap, Join, WordOf, PrintSet, WellFormed;
    ghost var words := PrintSet(procs, n, width);
    PrintedSetReadsBack(procs, n, width, 0);
    forall p: nat ensures InMap(words, p) <==> p in procs { PrintedSetReadsBack(procs, n, width, p); }
    CpumapToCpuCi(Join(PrintSet(procs, n, width)), cpuinfo, siblings, words);
    forall a | 0 <= a < SIBLINGS
      ensures siblings[a] == if exists p :: HasApicId(procs, cpuinfo, p, a) then 1 else old(siblings[a])
    {
      if p: nat :| Marks(words, cpuinfo, p, a) { assert HasApicId(procs, cpuinfo, p, a); }
      if p :| HasApicId(procs, cpuinfo, p, a) { assert Marks(words, cpuinfo, p, a); }
    }
  }

  ghost predicate HasApicId(procs: set<nat>, cpuinfo: seq<nat>, p: nat, a: nat) {
    p in procs && p < |cpuinfo| && cpuinfo[p] == a
  }

  /** The 32 bits of one word. */
  method MarkWord(ghost words: seq<string>, cpuinfo: seq<nat>, siblings: array<nat>, ghost was: seq<nat>, ghost done: nat,
                  word: nat, mask: nat)
    requires WellFormed(words) && done + word + 1 == |words| && mask == HexValue(words[done])
    requires siblings.Length == SIBLINGS == |was|
    requires forall p: nat | InMap(words, p) :: p < |cpuinfo|
    requires Marked(words, cpuinfo, was, siblings[..], 32 * (word + 1), 32 * word, 32 * word)
    modifies siblings
    ensures Marked(words, cpuinfo, was, siblings[..], 32 * word, 0, 0)
  {
    hide InMap, Marked, Marks, HexValue, WellFormed, Bit;
    var bit := 0;
    while bit < 32
      invariant 0 <= bit <= 32
      invariant Marked(words, cpuinfo, was, siblings[..], 32 * (word + 1), 32 * word, 32 * word + bit)
    {
      var proc := word * 32 + bit;
      InMapHere(words, done, word, bit);
      MarkStep(words, cpuinfo, was, siblings[..], 32 * (word + 1), 32 * word, proc);
      if Bit(mask, bit) {
        var apicid := cpuinfo[proc];
        if apicid < SIBLINGS {
          ghost var before := siblings[..];
          siblings[apicid] := 1;
          assert siblings[..] == before[apicid := 1];
        }
      }
      bit := bit + 1;
    }
    MarkedSame(words, cpuinfo, was, siblings[..], 32 * (word + 1), 32 * word, 32 * word + 32, 32 * word, 0, 0);
  }

  lemma MarkNone(words: seq<string>, cpuinfo: seq<nat>, was: seq<nat>)
    requires WellFormed(words)
    ensures Marked(words, cpuinfo, was, was, 32 * |words|, 0, 0)
  {
  }

  lemma InMapHere(words: seq<string>, done: nat, word: nat, bit: nat)
    requires WellFormed(words) && done + word + 1 == |words| && bit < 32
    ensures InMap(words, word * 32 + bit) <==> Bit(HexValue(words[done]), bit)
  {
    hide Bit, HexValue;
    var p := word * 32 + bit;
    assert p / 32 == word && p % 32 == bit;
  }

  lemma JoinHead(words: seq<string>, done: nat)
    requires WellFormed(words) && done < |words|
    ensures IsWord(words[done])
    ensures words[done] != "" && forall i | 0 <= i < |words[done]| :: words[done][i] != ','
    ensures Join(words[done..]) == words[done] + if done + 1 < |words| then "," + Join(words[done + 1..]) else ""
  {
  }

  lemma JoinTail(words: seq<string>, done: nat, text: string, pos: nat, next: nat)
    requires done < |words| && pos <= |text|
    requires text[pos..] == words[done] + if done + 1 < |words| then "," + Join(words[done + 1..]) else ""
    requires next == pos + |words[done]| + if done + 1 < |words| then 1 else 0
    ensures next <= |text| && text[next..] == Join(words[done + 1..])
  {
  }

  lemma JoinDone(words: seq<string>, cpuinfo: seq<nat>, was: seq<nat>, now: seq<nat>)
    requires WellFormed(words) && Marked(words, cpuinfo, was, now, 0, 0, 0)
    ensures |now| == |was|
    ensures forall a | 0 <= a < |was| :: now[a] == if exists p: nat :: Marks(words, cpuinfo, p, a) then 1 else was[a]
  {
  }
}
