/** The tokens of the chain tokenizer: grams over the runes above 255, and runs of letters below 255, both
    as the buffers with bars deliver them and as they lie in the text. */
module ChainTokens {
  import opened GoStrings

  const BAR: char := '|'

  // ---- runes above 255

  function Wide(text: string): (d: string)
    ensures forall i :: 0 <= i < |d| ==> d[i] as int > 255
  {
    if text == [] then [] else if text[0] as int > 255 then [text[0]] + Wide(text[1..]) else Wide(text[1..])
  }

  datatype Kind = Single | Pair | Triple | Skip

  /** How many neighbours a gram reaches over. */
  function Reach(kind: Kind): nat {
    match kind
    case Single => 1
    case Pair => 2
    case Triple => 3
    case Skip => 3
  }

  function Gram(kind: Kind, d: string, i: nat): string
    requires i + Reach(kind) <= |d|
  {
    match kind
    case Single => [d[i]]
    case Pair => [d[i], d[i + 1]]
    case Triple => [d[i], d[i + 1], d[i + 2]]
    case Skip => [d[i], '*', d[i + 2]]
  }

  /** The first n grams of a kind. */
  function Grams(kind: Kind, d: string, n: nat): (grams: seq<string>)
    requires n == 0 || n + Reach(kind) - 1 <= |d|
    ensures |grams| == n && forall i :: 0 <= i < n ==> grams[i] == Gram(kind, d, i)
  {
    seq(n, i requires 0 <= i < n => Gram(kind, d, i))
  }

  function Block(kind: Kind, d: string): (grams: seq<string>)
    ensures |grams| == if |d| < Reach(kind) then 0 else |d| - (Reach(kind) - 1)
    ensures forall i :: 0 <= i < |grams| ==> grams[i] == Gram(kind, d, i)
  {
    Grams(kind, d, if |d| < Reach(kind) then 0 else |d| - (Reach(kind) - 1))
  }

  /** The grams of all the kinds asked for: skipping ones only along with triples. */
  function Multibyte(d: string, unitary: bool, binary: bool, ternary: bool, chain: bool): seq<string> {
    (if unitary then Block(Single, d) else []) +
    (if binary then Block(Pair, d) else []) +
    (if ternary then Block(Triple, d) else []) +
    (if ternary && chain then Block(Skip, d) else [])
  }

  /** The positions of the runes above 255. */
  function WidePositions(text: string): set<nat> {
    set i: nat | i < |text| && text[i] as int > 255
  }

  lemma {:induction false} WideCounts(text: string)
    ensures |Wide(text)| == |WidePositions(text)|
  {
    if text != [] {
      var rest := text[1..];
      var later := WidePositions(rest);
      var shifted := set i: nat | i in later :: i + 1;
      WideCounts(rest);
      ShiftKeepsSize(later);
      forall i: nat ensures i in WidePositions(text) <==> i in shifted || (i == 0 && text[0] as int > 255) {
        if 0 < i < |text| {
          assert text[i] == rest[i - 1];
          assert i - 1 in later <==> text[i] as int > 255;
        }
      }
      if text[0] as int > 255 {
        assert WidePositions(text) == shifted + {0};
      } else {
        assert WidePositions(text) == shifted;
      }
    }
  }

  lemma {:induction false} ShiftKeepsSize(s: set<nat>)
    ensures |set i: nat | i in s :: i + 1| == |s|
    decreases |s|
  {
    var shifted := set i: nat | i in s :: i + 1;
    if s != {} {
      var x :| x in s;
      ShiftKeepsSize(s - {x});
      var smaller := set i: nat | i in s - {x} :: i + 1;
      forall y ensures y in shifted <==> y in smaller || y == x + 1 {
        if y in shifted {
          var i: nat :| i in s && y == i + 1;
          assert i == x || i in s - {x};
        }
      }
      assert shifted == smaller + {x + 1};
    } else {
      assert shifted == {};
    }
  }

  /** How many grams n runes above 255 give: all runes, all neighbouring pairs, all triples, and as many
      masked triples. */
  lemma MultibyteCounts(text: string, unitary: bool, binary: bool, ternary: bool, chain: bool)
    ensures var n := |WidePositions(text)|;
            var pairs, triples := if n < 1 then 0 else n - 1, if n < 2 then 0 else n - 2;
            |Multibyte(Wide(text), unitary, binary, ternary, chain)| ==
            (if unitary then n else 0) + (if binary then pairs else 0) +
            (if ternary then if chain then 2 * triples else triples else 0)
  {
    WideCounts(text);
  }

  /** Grams keep clear of the bar, and none is empty. */
  ghost predicate Barless(grams: seq<string>) {
    forall i :: 0 <= i < |grams| ==> grams[i] != "" && BAR !in grams[i]
  }

  lemma GramBarless(kind: Kind, d: string, i: nat)
    requires i + Reach(kind) <= |d| && forall k :: 0 <= k < |d| ==> d[k] as int > 255
    ensures Gram(kind, d, i) != "" && BAR !in Gram(kind, d, i)
  {
  }

  lemma MultibyteBarless(text: string, unitary: bool, binary: bool, ternary: bool, chain: bool)
    ensures Barless(Multibyte(Wide(text), unitary, binary, ternary, chain))
  {
    var d := Wide(text);
    forall kind ensures Barless(Block(kind, d)) {
      forall i | 0 <= i < |Block(kind, d)| ensures Block(kind, d)[i] != "" && BAR !in Block(kind, d)[i] {
        GramBarless(kind, d, i);
      }
    }
    BarlessConcat(if unitary then Block(Single, d) else [], if binary then Block(Pair, d) else []);
    BarlessConcat((if unitary then Block(Single, d) else []) + (if binary then Block(Pair, d) else []),
                  if ternary then Block(Triple, d) else []);
    BarlessConcat((if unitary then Block(Single, d) else []) + (if binary then Block(Pair, d) else []) +
                  (if ternary then Block(Triple, d) else []), if ternary && chain then Block(Skip, d) else []);
  }

  lemma BarlessConcat(a: seq<string>, b: seq<string>)
    requires Barless(a) && Barless(b)
    ensures Barless(a + b)
  {
  }

  /** Writing grams with bars, trimming and splitting gives the grams back, or one empty token for none. */
  lemma SplitBars(grams: seq<string>)
    requires Barless(grams)
    ensures Split(TrimRight(Terminated(grams, BAR), BAR), [BAR]) == if grams == [] then [""] else grams
  {
    assert FreeOf(grams, BAR);
    SplitTerminated(grams, BAR);
    assert DropTrailingEmpty(grams) == grams;
  }

  // ---- letters below 255

  /** unicode.IsLetter below 255. */
  predicate Letter(c: char) {
    var n := c as int;
    65 <= n <= 90 || 97 <= n <= 122 || n == 170 || n == 181 || n == 186 ||
    192 <= n <= 214 || 216 <= n <= 246 || 248 <= n <= 254
  }

  function Fold(c: char): char {
    if 'A' <= c <= 'Z' then c + 32 as char else c
  }

  function Mask(c: char): char {
    if Letter(c) then Fold(c) else BAR
  }

  function Masked(text: string): (m: string)
    ensures |m| == |text| && forall i :: 0 <= i < |m| ==> m[i] == Mask(text[i])
  {
    seq(|text|, i requires 0 <= i < |text| => Mask(text[i]))
  }

  /** The number of bytes in UTF-8. */
  function ByteLen(s: string): nat {
    if s == "" then 0
    else
      var n := s[0] as int;
      (if n < 0x80 then 1 else if n < 0x800 then 2 else if n < 0x10000 then 3 else 4) + ByteLen(s[1..])
  }

  /** unicode.ToLower for the letters below 255. */
  function LowerRune(c: char): char {
    if 'A' <= c <= 'Z' || (192 <= c as int <= 222 && c as int != 215) then c + 32 as char else c
  }

  function Lower(s: string): string {
    if s == "" then "" else [LowerRune(s[0])] + Lower(s[1..])
  }

  predicate Long(s: string) {
    ByteLen(s) > 1
  }

  // ---- what the loops take from the split pieces

  datatype Rule = Words(stop: set<string>) | Pairs | Triples | Gaps

  /** What a loop appends when it stands at the first of these pieces. */
  function Take(rule: Rule, tl: seq<string>): seq<string>
    requires tl != []
  {
    match rule
    case Words(stop) =>
      if 2 <= ByteLen(tl[0]) <= 16 && Lower(tl[0]) !in stop then [Lower(tl[0])] else []
    case Pairs =>
      if |tl| > 1 && Long(tl[0]) && Long(tl[1]) then [tl[0] + " " + tl[1]] else []
    case Triples =>
      if |tl| > 2 && Long(tl[0]) && Long(tl[1]) && Long(tl[2]) then [tl[0] + " " + tl[1] + " " + tl[2]] else []
    case Gaps =>
      if |tl| > 2 && Long(tl[0]) && Long(tl[1]) then [tl[0] + " * " + tl[2]] else []
  }

  function Spread(rule: Rule, tl: seq<string>): seq<string> {
    if tl == [] then [] else Take(rule, tl) + Spread(rule, tl[1..])
  }

  function SpreadIf(asked: bool, rule: Rule, tl: seq<string>): seq<string> {
    if asked then Spread(rule, tl) else []
  }

  function Pieces(text: string): (tl: seq<string>)
    ensures |tl| >= 1
  {
    Split(TrimRight(Masked(text), BAR), [BAR])
  }

  function Ascii(tl: seq<string>, stop: set<string>, unitary: bool, binary: bool, ternary: bool, fuzzy: bool)
    : seq<string>
  {
    SpreadIf(unitary, Words(stop), tl) + SpreadIf(binary, Pairs, tl) +
    SpreadIf(ternary, Triples, tl) + SpreadIf(ternary && fuzzy, Gaps, tl)
  }

  // ---- tokens are longer than one byte

  lemma {:induction false} ByteLenConcat(a: string, b: string)
    ensures ByteLen(a + b) == ByteLen(a) + ByteLen(b)
  {
    var s := a + b;
    if a == "" {
      assert s == b;
    } else {
      assert s[0] == a[0] && s[1..] == a[1..] + b;
      ByteLenConcat(a[1..], b);
    }
  }

  lemma {:induction false} ByteLenLower(s: string)
    ensures ByteLen(Lower(s)) == ByteLen(s)
  {
    if s != "" {
      ByteLenLower(s[1..]);
      assert Lower(s)[1..] == Lower(s[1..]);
    }
  }

  lemma TakenIsLong(rule: Rule, tl: seq<string>, s: string)
    requires tl != [] && s in Take(rule, tl)
    ensures Long(s)
  {
    match rule
    case Words(stop) => ByteLenLower(tl[0]);
    case Pairs => ByteLenConcat(tl[0] + " ", tl[1]);
    case Triples => ByteLenConcat(tl[0] + " " + tl[1] + " ", tl[2]);
    case Gaps =>
      ByteLenConcat(tl[0] + " * ", tl[2]);
      ByteLenConcat(tl[0], " * ");
  }

  lemma {:induction false} SpreadIsLong(rule: Rule, tl: seq<string>)
    ensures forall s :: s in Spread(rule, tl) ==> Long(s)
  {
    if tl != [] {
      SpreadIsLong(rule, tl[1..]);
      forall s | s in Take(rule, tl) ensures Long(s) { TakenIsLong(rule, tl, s); }
    }
  }

  lemma AsciiIsLong(tl: seq<string>, stop: set<string>, unitary: bool, binary: bool, ternary: bool, fuzzy: bool)
    ensures forall s :: s in Ascii(tl, stop, unitary, binary, ternary, fuzzy) ==> Long(s)
  {
    SpreadIsLong(Words(stop), tl);
    SpreadIsLong(Pairs, tl);
    SpreadIsLong(Triples, tl);
    SpreadIsLong(Gaps, tl);
  }

  // ---- the loops

  lemma WideStep(text: string, i: nat)
    requires i < |text|
    ensures Wide(text[i..]) == if text[i] as int > 255 then [text[i]] + Wide(text[i + 1..]) else Wide(text[i + 1..])
  {
    var s := text[i..];
    assert s[0] == text[i] && s[1..] == text[i + 1..];
  }

  /** The first n grams as they are written into the buffer. */
  function Written(kind: Kind, d: string, n: nat): string
    requires n == 0 || n + Reach(kind) - 1 <= |d|
  {
    Terminated(Grams(kind, d, n), BAR)
  }

  lemma WrittenStep(kind: Kind, d: string, n: nat)
    requires n + Reach(kind) <= |d|
    ensures Written(kind, d, n + 1) == Written(kind, d, n) + (Gram(kind, d, n) + [BAR])
  {
    assert Grams(kind, d, n + 1) == Grams(kind, d, n) + [Gram(kind, d, n)];
    TerminatedSnoc(Grams(kind, d, n), Gram(kind, d, n), BAR);
  }

  function WrittenBlock(asked: bool, kind: Kind, d: string): string {
    if asked then Terminated(Block(kind, d), BAR) else ""
  }

  lemma MultibyteWritten(d: string, unitary: bool, binary: bool, ternary: bool, chain: bool)
    ensures Terminated(Multibyte(d, unitary, binary, ternary, chain), BAR) ==
            WrittenBlock(unitary, Single, d) + WrittenBlock(binary, Pair, d) +
            WrittenBlock(ternary, Triple, d) + WrittenBlock(ternary && chain, Skip, d)
  {
    var s1 := if unitary then Block(Single, d) else [];
    var s2 := if binary then Block(Pair, d) else [];
    var s3 := if ternary then Block(Triple, d) else [];
    var s4 := if ternary && chain then Block(Skip, d) else [];
    TerminatedConcat(s1 + s2 + s3, s4, BAR);
    TerminatedConcat(s1 + s2, s3, BAR);
    TerminatedConcat(s1, s2, BAR);
  }

  lemma SpreadStep(rule: Rule, tl: seq<string>, i: nat)
    requires i < |tl|
    ensures Spread(rule, tl[i..]) == Take(rule, tl[i..]) + Spread(rule, tl[i + 1..])
  {
    assert tl[i..][1..] == tl[i + 1..];
  }

  /** Too few pieces for a rule give nothing. */
  lemma SpreadShort(rule: Rule, tl: seq<string>)
    requires match rule case Words(_) => |tl| == 0 case Pairs => |tl| <= 1 case _ => |tl| <= 2
    ensures Spread(rule, tl) == []
  {
    if tl != [] {
      var rest := tl[1..];
      assert rest != [] ==> rest[1..] == [];
    }
  }

  lemma {:induction false} ExceptNonEmpty(grams: seq<string>, stop: set<string>)
    requires Barless(grams)
    ensures Except(if grams == [] then [""] else grams, stop + {""}) == Except(grams, stop)
  {
    if grams != [] {
      var rest := grams[1..];
      ExceptNonEmpty(rest, stop);
      assert rest == [] ==> Except(rest, stop + {""}) == [];
    }
  }

  // ---- the same tokens, read off the text

  /** Where the letters that start at p end. */
  function RunEnd(text: string, p: nat): (e: nat)
    requires p <= |text|
    ensures p <= e <= |text| && (e < |text| ==> !Letter(text[e]))
    ensures e > p <==> p < |text| && Letter(text[p])
    decreases |text| - p
  {
    if p < |text| && Letter(text[p]) then RunEnd(text, p + 1) else p
  }

  function Folded(s: string): (r: string)
    ensures |r| == |s| && forall i :: 0 <= i < |r| ==> r[i] == Fold(s[i])
  {
    seq(|s|, i requires 0 <= i < |s| => Fold(s[i]))
  }

  /** The case-folded run of letters that starts at p. */
  function Run(text: string, p: nat): string
    requires p <= |text|
  {
    Folded(text[p..RunEnd(text, p)])
  }

  predicate LetterFrom(text: string, q: nat) {
    exists i :: q <= i < |text| && Letter(text[i])
  }

  /** The tokens whose first run starts at p: the run itself, or it and the next ones with exactly one rune
      between two of them. The last rule wants two runs and a letter somewhere behind them; what follows the
      next single rune, be it empty, is its third part. */
  function At(rule: Rule, text: string, p: nat): seq<string>
    requires p < |text|
  {
    var run, q := Run(text, p), RunEnd(text, p) + 1;
    match rule
    case Words(stop) => if 2 <= ByteLen(run) <= 16 && Lower(run) !in stop then [Lower(run)] else []
    case Pairs => if Long(run) && q < |text| && Long(Run(text, q)) then [run + " " + Run(text, q)] else []
    case Triples =>
      if Long(run) && q < |text| && Long(Run(text, q)) then
        var r := RunEnd(text, q) + 1;
        if r < |text| && Long(Run(text, r)) then [run + " " + Run(text, q) + " " + Run(text, r)] else []
      else []
    case Gaps =>
      if Long(run) && q < |text| && Long(Run(text, q)) && LetterFrom(text, RunEnd(text, q)) then
        [run + " * " + Run(text, RunEnd(text, q) + 1)]
      else []
  }

  predicate Starts(text: string, p: nat) {
    p < |text| && (p == 0 || !Letter(text[p - 1]))
  }

  function Collect(rule: Rule, text: string, p: nat): seq<string>
    requires p <= |text|
    decreases |text| - p
  {
    if p == |text| then []
    else if Starts(text, p) then At(rule, text, p) + Collect(rule, text, p + 1)
    else Collect(rule, text, p + 1)
  }

  function CollectIf(asked: bool, rule: Rule, text: string): seq<string> {
    if asked then Collect(rule, text, 0) else []
  }

  /** The tokens of the letter runs, block by block. */
  function Spelled(text: string, stop: set<string>, unitary: bool, binary: bool, ternary: bool, fuzzy: bool)
    : seq<string>
  {
    CollectIf(unitary, Words(stop), text) + CollectIf(binary, Pairs, text) +
    CollectIf(ternary, Triples, text) + CollectIf(ternary && fuzzy, Gaps, text)
  }

  // ---- the split pieces are the runs between single other runes

  function PiecesFrom(text: string, p: nat): (tl: seq<string>)
    requires p <= |text|
    ensures |tl| >= 1
    decreases |text| - p
  {
    var e := RunEnd(text, p);
    if LetterFrom(text, e) then [Run(text, p)] + PiecesFrom(text, e + 1) else [Run(text, p)]
  }

  lemma {:induction false} RunLetters(text: string, p: nat, i: nat)
    requires p <= |text| && p <= i < RunEnd(text, p)
    ensures Letter(text[i]) && RunEnd(text, i) == RunEnd(text, p)
    decreases i - p
  {
    if p < i {
      RunLetters(text, p + 1, i);
    }
  }

  lemma AllLetters(text: string, p: nat)
    requires p <= |text|
    ensures forall i :: p <= i < RunEnd(text, p) ==> Letter(text[i])
  {
    forall i | p <= i < RunEnd(text, p) ensures Letter(text[i]) { RunLetters(text, p, i); }
  }

  lemma MaskBars(c: char)
    ensures Mask(c) == BAR <==> !Letter(c)
  {
  }

  /** The end of the text's last letter. */
  ghost predicate LettersEnd(text: string, end: nat) {
    end <= |text| && (end > 0 ==> Letter(text[end - 1])) && forall i :: end <= i < |text| ==> !Letter(text[i])
  }

  lemma TrimmedAtLettersEnd(text: string)
    ensures LettersEnd(text, |TrimRight(Masked(text), BAR)|)
  {
    var m := Masked(text);
    forall i | 0 <= i < |text| ensures m[i] == BAR <==> !Letter(text[i]) { MaskBars(text[i]); }
  }

  lemma RunInside(text: string, p: nat, end: nat)
    requires LettersEnd(text, end) && p <= end
    ensures RunEnd(text, p) <= end && (RunEnd(text, p) < end <==> LetterFrom(text, RunEnd(text, p)))
    ensures Masked(text)[p..RunEnd(text, p)] == Run(text, p) && BAR !in Run(text, p)
  {
    var e := RunEnd(text, p);
    AllLetters(text, p);
    assert p < e ==> Letter(text[e - 1]);
    forall i | p <= i < e ensures Masked(text)[i] == Fold(text[i]) != BAR { MaskBars(text[i]); }
  }

  /** The first bar of a text that starts with a bar-free part. */
  lemma SplitAtBar(s: string, n: nat)
    requires n <= |s| && BAR !in s[..n] && (n < |s| ==> s[n] == BAR)
    ensures Split(s, [BAR]) == if n < |s| then [s[..n]] + Split(s[n + 1..], [BAR]) else [s]
  {
    forall i ensures OccursAt(s, [BAR], i) <==> 0 <= i < |s| && s[i] == BAR { OccursOne(s, BAR, i); }
    forall i | 0 <= i < n ensures s[i] != BAR { assert s[i] == s[..n][i]; }
    if n < |s| {
      assert OccursAt(s, [BAR], n);
      assert Index(s, [BAR]) == n;
    } else {
      assert Index(s, [BAR]) == -1;
    }
  }

  lemma SplitSlice(m: string, p: nat, e: nat, end: nat)
    requires p <= e <= end <= |m| && BAR !in m[p..e] && (e < end ==> m[e] == BAR)
    ensures Split(m[p..end], [BAR]) == if e < end then [m[p..e]] + Split(m[e + 1..end], [BAR]) else [m[p..e]]
  {
    var s, n := m[p..end], e - p;
    var first, rest := m[p..e], if e < end then m[e + 1..end] else [];
    assert s[..n] == first;
    if e < end {
      assert s[n] == BAR && s[n + 1..] == rest;
    } else {
      assert s == first;
    }
    SplitAtBar(s, n);
  }

  /** Splitting m[p..end] cuts off the run at p, and goes on behind the rune after it. */
  ghost predicate SplitsAt(text: string, m: string, p: nat, end: nat)
    requires p <= end <= |text| == |m|
  {
    var e := RunEnd(text, p);
    e <= end && (e < end <==> LetterFrom(text, e)) &&
    Split(m[p..end], [BAR]) ==
    if e < end then [Run(text, p)] + Split(m[e + 1..end], [BAR]) else [Run(text, p)]
  }

  lemma MaskedSplitsAt(text: string, p: nat, end: nat)
    requires LettersEnd(text, end) && p <= end
    ensures SplitsAt(text, Masked(text), p, end)
  {
    var m, e := Masked(text), RunEnd(text, p);
    RunInside(text, p, end);
    if e < end {
      MaskBars(text[e]);
    }
    SplitSlice(m, p, e, end);
  }

  /** So splitting from p on gives the pieces from p on. */
  lemma {:induction false} SplitFrom(text: string, m: string, p: nat, end: nat)
    requires p <= end <= |text| == |m| && forall q: nat :: p <= q <= end ==> SplitsAt(text, m, q, end)
    ensures Split(m[p..end], [BAR]) == PiecesFrom(text, p)
    decreases |text| - p
  {
    var e := RunEnd(text, p);
    assert SplitsAt(text, m, p, end);
    if e < end {
      SplitFrom(text, m, e + 1, end);
    }
  }

  lemma FirstPieces(text: string, p: nat)
    requires p <= |text|
    ensures var tl, e := PiecesFrom(text, p), RunEnd(text, p);
            tl[0] == Run(text, p) && (|tl| > 1 <==> LetterFrom(text, e)) &&
            (|tl| > 1 ==> tl[1..] == PiecesFrom(text, e + 1))
  {
  }

  lemma PiecesAreRuns(text: string)
    ensures Pieces(text) == PiecesFrom(text, 0)
  {
    var m, trimmed := Masked(text), TrimRight(Masked(text), BAR);
    TrimmedAtLettersEnd(text);
    forall q: nat | 0 <= q <= |trimmed| ensures SplitsAt(text, m, q, |trimmed|) {
      MaskedSplitsAt(text, q, |trimmed|);
    }
    SplitFrom(text, m, 0, |trimmed|);
    assert m[0..|trimmed|] == trimmed;
  }

  // ---- so the loops over the pieces collect the tokens off the text

  lemma LongRun(text: string, p: nat)
    requires p <= |text| && Long(Run(text, p))
    ensures p < |text| && Letter(text[p])
  {
  }

  /** The first three pieces are the runs one rune apart, as many as there are letters further on. */
  ghost predicate Seen(text: string, p: nat, tl: seq<string>)
    requires p <= |text|
  {
    var e := RunEnd(text, p);
    |tl| >= 1 && tl[0] == Run(text, p) && (|tl| > 1 <==> LetterFrom(text, e)) &&
    (|tl| > 1 ==>
       e < |text| && tl[1] == Run(text, e + 1) && (|tl| > 2 <==> LetterFrom(text, RunEnd(text, e + 1))) &&
       (|tl| > 2 ==> RunEnd(text, e + 1) < |text| && tl[2] == Run(text, RunEnd(text, e + 1) + 1)))
  }

  lemma PiecesSeen(text: string, p: nat)
    requires p <= |text|
    ensures Seen(text, p, PiecesFrom(text, p))
  {
    var tl, e := PiecesFrom(text, p), RunEnd(text, p);
    FirstPieces(text, p);
    if |tl| > 1 {
      var rest := tl[1..];
      FirstPieces(text, e + 1);
      assert tl[1] == rest[0] && (|tl| > 2 ==> tl[2] == rest[1] == rest[1..][0]);
      if |tl| > 2 {
        FirstPieces(text, RunEnd(text, e + 1) + 1);
      }
    }
  }

  /** A long run behind q means that there are letters from q on. */
  lemma LongMeansLetter(text: string, q: nat, r: nat)
    requires q <= r <= |text| && Long(Run(text, r))
    ensures r < |text| && LetterFrom(text, q)
  {
    LongRun(text, r);
  }

  lemma SeenPairs(text: string, p: nat, tl: seq<string>)
    requires p < |text| && Seen(text, p, tl)
    ensures Take(Pairs, tl) == At(Pairs, text, p)
  {
    var e := RunEnd(text, p);
    if e + 1 < |text| && Long(Run(text, e + 1)) {
      LongMeansLetter(text, e, e + 1);
    }
  }

  /** The second run is long: the third decides. */
  lemma SeenThird(text: string, p: nat, tl: seq<string>)
    requires p < |text| && Seen(text, p, tl)
    requires var q := RunEnd(text, p) + 1; q < |text| && Long(Run(text, q))
    ensures Take(Triples, tl) == At(Triples, text, p)
  {
    var e := RunEnd(text, p);
    LongMeansLetter(text, e, e + 1);
    var f := RunEnd(text, e + 1);
    if f + 1 < |text| && Long(Run(text, f + 1)) {
      LongMeansLetter(text, f, f + 1);
    }
  }

  lemma SeenTriples(text: string, p: nat, tl: seq<string>)
    requires p < |text| && Seen(text, p, tl)
    ensures Take(Triples, tl) == At(Triples, text, p)
  {
    var q := RunEnd(text, p) + 1;
    if q < |text| && Long(Run(text, q)) {
      SeenThird(text, p, tl);
    } else {
      assert At(Triples, text, p) == [];
      assert |tl| > 1 ==> !Long(tl[1]);
    }
  }

  lemma SeenGaps(text: string, p: nat, tl: seq<string>)
    requires p < |text| && Seen(text, p, tl)
    ensures Take(Gaps, tl) == At(Gaps, text, p)
  {
    var e := RunEnd(text, p);
    if e + 1 < |text| && Long(Run(text, e + 1)) {
      LongMeansLetter(text, e, e + 1);
    }
  }

  lemma TakeIsAt(rule: Rule, text: string, p: nat)
    requires p < |text|
    ensures Take(rule, PiecesFrom(text, p)) == At(rule, text, p)
  {
    var tl := PiecesFrom(text, p);
    PiecesSeen(text, p);
    match rule
    case Words(_) =>
    case Pairs => SeenPairs(text, p, tl);
    case Triples => SeenTriples(text, p, tl);
    case Gaps => SeenGaps(text, p, tl);
  }

  /** Where only letters lie behind and ahead up to e, nothing starts, and nothing at e. */
  lemma {:induction false} CollectInside(rule: Rule, text: string, i: nat, e: nat)
    requires 0 < i <= e <= |text| && forall k :: i - 1 <= k < e ==> Letter(text[k])
    ensures Collect(rule, text, i) == Collect(rule, text, if e < |text| then e + 1 else e)
    decreases e - i
  {
    assert Letter(text[i - 1]);
    if i < e {
      CollectInside(rule, text, i + 1, e);
    }
  }

  lemma {:induction false} CollectNoLetters(rule: Rule, text: string, q: nat)
    requires q <= |text| && !LetterFrom(text, q)
    ensures Collect(rule, text, q) == []
    decreases |text| - q
  {
    if q < |text| {
      assert !Letter(text[q]);
      CollectNoLetters(rule, text, q + 1);
      assert Run(text, q) == "";
    }
  }

  lemma CollectStart(rule: Rule, text: string, p: nat)
    requires Starts(text, p)
    ensures Collect(rule, text, p) == At(rule, text, p) + Collect(rule, text, p + 1)
  {
  }

  lemma CollectRest(rule: Rule, text: string, p: nat)
    requires p < |text|
    ensures var e := RunEnd(text, p);
            Collect(rule, text, p + 1) == Collect(rule, text, if e < |text| then e + 1 else e)
  {
    var e := RunEnd(text, p);
    if p < e {
      AllLetters(text, p);
      CollectInside(rule, text, p + 1, e);
    } else {
      assert p + 1 == if e < |text| then e + 1 else e;
    }
  }

  lemma {:induction false} SpreadFrom(rule: Rule, text: string, p: nat)
    requires p == |text| || Starts(text, p)
    ensures Spread(rule, PiecesFrom(text, p)) == Collect(rule, text, p)
    decreases |text| - p
  {
    var tl, e := PiecesFrom(text, p), RunEnd(text, p);
    FirstPieces(text, p);
    assert Spread(rule, tl) == Take(rule, tl) + Spread(rule, tl[1..]);
    if p < |text| {
      var q := if e < |text| then e + 1 else e;
      TakeIsAt(rule, text, p);
      CollectStart(rule, text, p);
      CollectRest(rule, text, p);
      if LetterFrom(text, e) {
        SpreadFrom(rule, text, q);
      } else {
        CollectNoLetters(rule, text, q);
        assert tl[1..] == [];
      }
    } else {
      assert Run(text, p) == "" && tl == [""];
      assert tl[1..] == [];
    }
  }

  /** The blocks that the loops build from the split buffer are those read off the text. */
  lemma AsciiIsSpelled(text: string, stop: set<string>, unitary: bool, binary: bool, ternary: bool, fuzzy: bool)
    ensures Ascii(Pieces(text), stop, unitary, binary, ternary, fuzzy) ==
            Spelled(text, stop, unitary, binary, ternary, fuzzy)
  {
    PiecesAreRuns(text);
    SpreadFrom(Words(stop), text, 0);
    SpreadFrom(Pairs, text, 0);
    SpreadFrom(Triples, text, 0);
    SpreadFrom(Gaps, text, 0);
  }

  /** A block holds exactly the tokens of the positions where a run may start. */
  lemma {:induction false} CollectExactly(rule: Rule, text: string, p: nat, s: string)
    requires p <= |text|
    ensures s in Collect(rule, text, p) <==> exists i :: p <= i && Starts(text, i) && s in At(rule, text, i)
    decreases |text| - p
  {
    if p < |text| {
      CollectExactly(rule, text, p + 1, s);
      var here := Starts(text, p) && s in At(rule, text, p);
      assert s in Collect(rule, text, p) <==> here || s in Collect(rule, text, p + 1);
    }
  }

  /** The masking rule does not ask for a third run: it gives a token wherever the triple rule does, and
      otherwise just where the third part is empty or a single one-byte letter. */
  lemma GapsWithoutTriples(text: string, p: nat)
    requires p < |text|
    ensures At(Triples, text, p) != [] ==> At(Gaps, text, p) != []
    ensures At(Gaps, text, p) != [] ==>
              var q := RunEnd(text, p) + 1;
              q < |text| && RunEnd(text, q) + 1 <= |text| &&
              (At(Triples, text, p) == [] <==> ByteLen(Run(text, RunEnd(text, q) + 1)) <= 1)
  {
    var q := RunEnd(text, p) + 1;
    if q < |text| {
      var r := RunEnd(text, q) + 1;
      if r < |text| && Long(Run(text, r)) {
        LongRun(text, r);
        assert r < |text| && Letter(text[r]);
      }
    }
  }
}
