/** What the chain tokenizer's tokens are, by the text alone: which runes its grams are made of, which code
    points its letter runs, and where in the text each token stands. */
module ChainText {
  import opened GoStrings
  import opened ChainTokens

  // ---- grams

  /** The positions of the runes above 255 from p on. */
  function WideFrom(text: string, p: nat): seq<nat>
    requires p <= |text|
    decreases |text| - p
  {
    if p == |text| then [] else if text[p] as int > 255 then [p] + WideFrom(text, p + 1) else WideFrom(text, p + 1)
  }

  lemma {:induction false} WideFromAt(text: string, p: nat)
    requires p <= |text|
    ensures Ascending(WideFrom(text, p))
    ensures forall q: nat :: q in WideFrom(text, p) <==> p <= q < |text| && text[q] as int > 255
    decreases |text| - p
  {
    if p < |text| {
      WideFromAt(text, p + 1);
      if text[p] as int > 255 { AscendingCons(p, WideFrom(text, p + 1)); }
    }
  }

  lemma {:induction false} WideFromRunes(text: string, p: nat)
    requires p <= |text|
    ensures Picks(text, WideFrom(text, p), Wide(text[p..]))
    decreases |text| - p
  {
    if p < |text| {
      WideFromRunes(text, p + 1);
      WideStep(text, p);
      PicksCons(text, p, WideFrom(text, p + 1), Wide(text[p + 1..]));
    }
  }

  /** The runes that grams are made of are those above 255, in the order of the text. */
  lemma WideOfText(text: string) returns (ps: seq<nat>)
    ensures Ascending(ps) && forall p: nat :: p in ps <==> p < |text| && text[p] as int > 255
    ensures Picks(text, ps, Wide(text))
  {
    ps := WideFrom(text, 0);
    WideFromAt(text, 0);
    WideFromRunes(text, 0);
    assert text[0..] == text;
  }

  lemma GramSlices(w: string, i: nat)
    requires i < |w|
    ensures Gram(Single, w, i) == w[i..i + 1]
    ensures i + 2 <= |w| ==> Gram(Pair, w, i) == w[i..i + 2]
    ensures i + 3 <= |w| ==>
              Gram(Triple, w, i) == w[i..i + 3] && Gram(Skip, w, i) == w[i..i + 1] + "*" + w[i + 2..i + 3]
  {
  }

  /** The grams of the runes w: first the runes themselves, then all neighbours, then all three in a row, and
      last the same threes with a star for the one in the middle, each kind as far as it is asked for. */
  lemma MultibyteOfRunes(w: string, unitary: bool, binary: bool, ternary: bool, chain: bool)
    returns (singles: seq<string>, pairs: seq<string>, triples: seq<string>, skips: seq<string>)
    ensures Multibyte(w, unitary, binary, ternary, chain) == singles + pairs + triples + skips
    ensures |singles| == if unitary then |w| else 0
    ensures |pairs| == if binary && |w| > 1 then |w| - 1 else 0
    ensures |triples| == if ternary && |w| > 2 then |w| - 2 else 0
    ensures |skips| == if chain then |triples| else 0
    ensures forall i :: 0 <= i < |singles| ==> singles[i] == w[i..i + 1]
    ensures forall i :: 0 <= i < |pairs| ==> pairs[i] == w[i..i + 2]
    ensures forall i :: 0 <= i < |triples| ==> triples[i] == w[i..i + 3]
    ensures forall i :: 0 <= i < |skips| ==> skips[i] == w[i..i + 1] + "*" + w[i + 2..i + 3]
  {
    singles := if unitary then Block(Single, w) else [];
    pairs := if binary then Block(Pair, w) else [];
    triples := if ternary then Block(Triple, w) else [];
    skips := if ternary && chain then Block(Skip, w) else [];
    forall i | 0 <= i < |singles| ensures singles[i] == w[i..i + 1] { GramSlices(w, i); }
    forall i | 0 <= i < |pairs| ensures pairs[i] == w[i..i + 2] { GramSlices(w, i); }
    forall i | 0 <= i < |triples| ensures triples[i] == w[i..i + 3] { GramSlices(w, i); }
    forall i | 0 <= i < |skips| ensures skips[i] == w[i..i + 1] + "*" + w[i + 2..i + 3] { GramSlices(w, i); }
  }

  // ---- letters

  /** Unicode's upper case letters below 255, and its lower case ones. */
  predicate UpperCase(n: int) {
    65 <= n <= 90 || 192 <= n <= 214 || 216 <= n <= 222
  }

  predicate LowerCase(n: int) {
    97 <= n <= 122 || n == 181 || 223 <= n <= 246 || 248 <= n <= 254
  }

  /** With the two ordinal indicators, which have no case. */
  predicate LetterCode(n: int) {
    UpperCase(n) || LowerCase(n) || n == 170 || n == 186
  }

  /** The masked letters are these; the lower case of one is 32 further where it is upper case. */
  lemma LettersExactly(c: char)
    ensures Letter(c) <==> LetterCode(c as int)
    ensures Letter(c) ==> LowerRune(Fold(c)) as int == c as int + if UpperCase(c as int) then 32 else 0
  {
  }

  lemma {:induction false} LowerFolded(s: string)
    requires forall i :: 0 <= i < |s| ==> Letter(s[i])
    ensures var t := Lower(Folded(s));
            |t| == |s| && forall i :: 0 <= i < |s| ==>
              t[i] as int == s[i] as int + if UpperCase(s[i] as int) then 32 else 0
  {
    if s != "" {
      LettersExactly(s[0]);
      LowerFolded(s[1..]);
      assert Folded(s)[1..] == Folded(s[1..]);
    }
  }

  // ---- runs

  /** The text has letters from a to b, and none next to them. */
  ghost predicate RunOf(text: string, a: nat, b: nat) {
    a < b <= |text| && (forall i :: a <= i < b ==> LetterCode(text[i] as int)) &&
    (a > 0 ==> !LetterCode(text[a - 1] as int)) && (b < |text| ==> !LetterCode(text[b] as int))
  }

  /** x is what the text holds from a to b, with A to Z in lower case. */
  ghost predicate Reads(text: string, a: nat, b: nat, x: string) {
    a <= b <= |text| && |x| == b - a &&
    forall i :: 0 <= i < |x| ==>
      x[i] as int == text[a + i] as int + if 'A' <= text[a + i] <= 'Z' then 32 else 0
  }

  /** A run of two letters or more, or of one outside ASCII. */
  ghost predicate LongAt(text: string, a: nat, b: nat, x: string) {
    RunOf(text, a, b) && Reads(text, a, b, x) && (b - a >= 2 || text[a] as int >= 0x80)
  }

  function BeyondAscii(text: string, a: nat, b: nat): set<nat>
    requires b <= |text|
  {
    set i: nat | a <= i < b && text[i] as int >= 0x80
  }

  /** The bytes that the runes from a to b take in UTF-8, for runes below 0x800. */
  function Bytes(text: string, a: nat, b: nat): int
    requires b <= |text|
  {
    b - a + |BeyondAscii(text, a, b)|
  }

  lemma BytesStep(text: string, a: nat, b: nat)
    requires a <= b < |text|
    ensures Bytes(text, a, a) == 0
    ensures Bytes(text, a, b + 1) == Bytes(text, a, b) + if text[b] as int >= 0x80 then 2 else 1
  {
    var before := BeyondAscii(text, a, b);
    assert BeyondAscii(text, a, b + 1) == if text[b] as int >= 0x80 then before + {b} else before;
    assert BeyondAscii(text, a, a) == {};
  }

  lemma {:induction false} BytesOfRun(text: string, a: nat, b: nat)
    requires a <= b <= |text| && forall i :: a <= i < b ==> Letter(text[i])
    ensures ByteLen(Folded(text[a..b])) == Bytes(text, a, b)
    decreases b - a
  {
    if a < b {
      var front, z := Folded(text[a..b - 1]), Fold(text[b - 1]);
      assert Folded(text[a..b]) == front + [z];
      BytesOfRun(text, a, b - 1);
      BytesStep(text, a, b - 1);
      ByteLenConcat(front, [z]);
      assert ByteLen([z]) == if text[b - 1] as int >= 0x80 then 2 else 1;
    } else {
      assert BeyondAscii(text, a, a) == {};
    }
  }

  lemma LongExactly(text: string, p: nat)
    requires p <= |text|
    ensures var b := RunEnd(text, p);
            Long(Run(text, p)) <==> b - p >= 2 || (b - p == 1 && text[p] as int >= 0x80)
  {
    var b := RunEnd(text, p);
    AllLetters(text, p);
    BytesOfRun(text, p, b);
    if b == p + 1 {
      BytesStep(text, p, p);
    }
  }

  /** The runs that RunEnd finds are those of the text. */
  lemma RunExactly(text: string, p: nat, b: nat)
    requires p <= |text| && (p > 0 ==> !Letter(text[p - 1]))
    ensures RunOf(text, p, b) <==> p < RunEnd(text, p) == b
  {
    AllLetters(text, p);
  }

  lemma ReadsExactly(text: string, p: nat, x: string)
    requires p <= |text|
    ensures Reads(text, p, RunEnd(text, p), x) <==> x == Run(text, p)
  {
  }

  lemma LongAtExactly(text: string, p: nat)
    requires p <= |text| && (p > 0 ==> !Letter(text[p - 1]))
    ensures forall b: nat, x :: LongAt(text, p, b, x) <==> b == RunEnd(text, p) && x == Run(text, p) && Long(x)
  {
    LongExactly(text, p);
    forall b: nat, x
      ensures LongAt(text, p, b, x) <==> b == RunEnd(text, p) && x == Run(text, p) && Long(x)
    {
      RunExactly(text, p, b);
      ReadsExactly(text, p, x);
    }
  }

  // ---- tokens

  /** The token x of the run at p: 2 to 16 bytes, in lower case, and no stop word. */
  ghost predicate WordAt(text: string, stop: set<string>, p: nat, x: string) {
    x !in stop &&
    exists b: nat :: RunOf(text, p, b) && 2 <= Bytes(text, p, b) <= 16 && |x| == b - p &&
      forall i :: 0 <= i < |x| ==>
        x[i] as int == text[p + i] as int + if UpperCase(text[p + i] as int) then 32 else 0
  }

  /** What a token takes from the text. */
  datatype Part = Part(a: nat, b: nat, x: string)

  ghost predicate LongPart(text: string, u: Part) {
    LongAt(text, u.a, u.b, u.x)
  }

  /** A run of any length, or nothing in front of a rune that is no letter. */
  ghost predicate AnyPart(text: string, u: Part) {
    u.a < |text| && Reads(text, u.a, u.b, u.x) &&
    if LetterCode(text[u.a] as int) then RunOf(text, u.a, u.b) else u.x == ""
  }

  /** Two long runs with one rune between them, the first at p. */
  ghost predicate Two(text: string, p: nat, u: Part, v: Part) {
    LongPart(text, u) && LongPart(text, v) && u.a == p && v.a == u.b + 1
  }

  ghost predicate Three(text: string, p: nat, u: Part, v: Part, w: Part) {
    Two(text, p, u, v) && LongPart(text, w) && w.a == v.b + 1
  }

  ghost predicate LetterBehind(text: string, q: nat) {
    exists i :: q <= i < |text| && LetterCode(text[i] as int)
  }

  /** Two, with a letter somewhere behind them, and a third part: the run one rune on, which may be of any
      length, or nothing where no letter stands there. */
  ghost predicate TwoAndAny(text: string, p: nat, u: Part, v: Part, w: Part) {
    Two(text, p, u, v) && LetterBehind(text, v.b) && AnyPart(text, w) && w.a == v.b + 1
  }

  ghost predicate PairAt(text: string, p: nat, s: string) {
    exists u, v :: Two(text, p, u, v) && s == u.x + " " + v.x
  }

  ghost predicate TripleAt(text: string, p: nat, s: string) {
    exists u, v, w :: Three(text, p, u, v, w) && s == u.x + " " + v.x + " " + w.x
  }

  ghost predicate GapAt(text: string, p: nat, s: string) {
    exists u, v, w :: TwoAndAny(text, p, u, v, w) && s == u.x + " * " + w.x
  }

  ghost predicate TokenAt(rule: Rule, text: string, p: nat, s: string) {
    match rule
    case Words(stop) => WordAt(text, stop, p, s)
    case Pairs => PairAt(text, p, s)
    case Triples => TripleAt(text, p, s)
    case Gaps => GapAt(text, p, s)
  }

  lemma WordExactly(text: string, stop: set<string>, p: nat, s: string)
    requires p < |text| && (p > 0 ==> !Letter(text[p - 1]))
    ensures WordAt(text, stop, p, s) <==> s in At(Words(stop), text, p)
  {
    var b := RunEnd(text, p);
    AllLetters(text, p);
    BytesOfRun(text, p, b);
    LowerFolded(text[p..b]);
    forall e: nat ensures RunOf(text, p, e) <==> p < b == e { RunExactly(text, p, e); }
    if WordAt(text, stop, p, s) {
      assert s == Lower(Run(text, p));
    }
    assert s in At(Words(stop), text, p) ==> RunOf(text, p, b);
  }

  function PartAt(text: string, p: nat): Part
    requires p <= |text|
  {
    Part(p, RunEnd(text, p), Run(text, p))
  }

  lemma LongPartExactly(text: string, p: nat)
    requires p > 0 && p <= |text| ==> !Letter(text[p - 1])
    ensures forall u :: LongPart(text, u) && u.a == p <==> p <= |text| && u == PartAt(text, p) && Long(u.x)
  {
    if p <= |text| { LongAtExactly(text, p); }
  }

  /** The next run starts one rune behind the end of this one. */
  function Next(text: string, p: nat): nat
    requires p <= |text|
  {
    RunEnd(text, p) + 1
  }

  /** Two long runs start at p. */
  predicate TwoFrom(text: string, p: nat)
    requires p <= |text|
  {
    Long(Run(text, p)) && Next(text, p) < |text| && Long(Run(text, Next(text, p)))
  }

  /** And then a third. */
  predicate ThreeFrom(text: string, p: nat)
    requires p <= |text|
  {
    TwoFrom(text, p) &&
    var r := Next(text, Next(text, p)); r < |text| && Long(Run(text, r))
  }

  lemma TwoExactly(text: string, p: nat, u: Part, v: Part)
    requires p < |text| && (p > 0 ==> !Letter(text[p - 1]))
    ensures Two(text, p, u, v) <==>
            TwoFrom(text, p) && u == PartAt(text, p) && v == PartAt(text, Next(text, p))
  {
    LongPartExactly(text, p);
    LongPartExactly(text, Next(text, p));
  }

  lemma ThreeExactly(text: string, p: nat, u: Part, v: Part, w: Part)
    requires p < |text| && (p > 0 ==> !Letter(text[p - 1]))
    ensures Three(text, p, u, v, w) <==>
            ThreeFrom(text, p) && u == PartAt(text, p) && v == PartAt(text, Next(text, p)) &&
            w == PartAt(text, Next(text, Next(text, p)))
  {
    TwoExactly(text, p, u, v);
    if TwoFrom(text, p) {
      LongPartExactly(text, Next(text, Next(text, p)));
    }
  }

  lemma PairValue(text: string, p: nat)
    requires p < |text|
    ensures At(Pairs, text, p) == if TwoFrom(text, p) then [Run(text, p) + " " + Run(text, Next(text, p))] else []
  {
  }

  lemma TripleValue(text: string, p: nat)
    requires p < |text|
    ensures At(Triples, text, p) ==
            if ThreeFrom(text, p) then
              [Run(text, p) + " " + Run(text, Next(text, p)) + " " + Run(text, Next(text, Next(text, p)))]
            else []
  {
  }

  lemma PairExactly(text: string, p: nat, s: string)
    requires p < |text| && (p > 0 ==> !Letter(text[p - 1]))
    ensures PairAt(text, p, s) <==> s in At(Pairs, text, p)
  {
    PairValue(text, p);
    if u, v :| Two(text, p, u, v) && s == u.x + " " + v.x {
      TwoExactly(text, p, u, v);
    }
    if TwoFrom(text, p) {
      TwoExactly(text, p, PartAt(text, p), PartAt(text, Next(text, p)));
    }
  }

  lemma TripleExactly(text: string, p: nat, s: string)
    requires p < |text| && (p > 0 ==> !Letter(text[p - 1]))
    ensures TripleAt(text, p, s) <==> s in At(Triples, text, p)
  {
    TripleValue(text, p);
    if u, v, w :| Three(text, p, u, v, w) && s == u.x + " " + v.x + " " + w.x {
      ThreeExactly(text, p, u, v, w);
    }
    if ThreeFrom(text, p) {
      var q := Next(text, p);
      ThreeExactly(text, p, PartAt(text, p), PartAt(text, q), PartAt(text, Next(text, q)));
    }
  }

  /** The third part of a masked token. */
  lemma AnyPartExactly(text: string, r: nat)
    requires 0 < r < |text| && !Letter(text[r - 1])
    ensures forall w :: AnyPart(text, w) && w.a == r ==> w.x == Run(text, r)
    ensures AnyPart(text, PartAt(text, r))
  {
    forall w | AnyPart(text, w) && w.a == r ensures w.x == Run(text, r) {
      RunExactly(text, r, w.b);
      ReadsExactly(text, r, w.x);
    }
    RunExactly(text, r, RunEnd(text, r));
    ReadsExactly(text, r, Run(text, r));
  }

  /** Two long runs start at p, and a letter comes behind them. */
  predicate GapFrom(text: string, p: nat)
    requires p <= |text|
  {
    TwoFrom(text, p) && LetterFrom(text, RunEnd(text, Next(text, p)))
  }

  lemma GapInside(text: string, p: nat)
    requires p <= |text| && GapFrom(text, p)
    ensures Next(text, Next(text, p)) < |text|
  {
  }

  lemma GapValue(text: string, p: nat)
    requires p < |text| && GapFrom(text, p)
    ensures Next(text, Next(text, p)) < |text|
    ensures At(Gaps, text, p) == [Run(text, p) + " * " + Run(text, Next(text, Next(text, p)))]
  {
    GapInside(text, p);
  }

  lemma GapNone(text: string, p: nat)
    requires p < |text| && !GapFrom(text, p)
    ensures At(Gaps, text, p) == []
  {
  }

  lemma TwoAndAnyOnly(text: string, p: nat, u: Part, v: Part, w: Part)
    requires p < |text| && (p > 0 ==> !Letter(text[p - 1])) && TwoAndAny(text, p, u, v, w)
    ensures GapFrom(text, p) && Next(text, Next(text, p)) < |text|
    ensures u.x == Run(text, p) && w.x == Run(text, Next(text, Next(text, p)))
  {
    TwoExactly(text, p, u, v);
    LettersBehind(text, v.b);
    GapInside(text, p);
    AnyPartExactly(text, w.a);
  }

  lemma TwoAndAnyFound(text: string, p: nat)
    requires p < |text| && (p > 0 ==> !Letter(text[p - 1])) && GapFrom(text, p)
    ensures Next(text, Next(text, p)) < |text|
    ensures TwoAndAny(text, p, PartAt(text, p), PartAt(text, Next(text, p)), PartAt(text, Next(text, Next(text, p))))
  {
    var q := Next(text, p);
    GapInside(text, p);
    TwoExactly(text, p, PartAt(text, p), PartAt(text, q));
    LettersBehind(text, RunEnd(text, q));
    AnyPartExactly(text, Next(text, q));
  }

  lemma GapExactly(text: string, p: nat, s: string)
    requires p < |text| && (p > 0 ==> !Letter(text[p - 1]))
    ensures GapAt(text, p, s) <==> s in At(Gaps, text, p)
  {
    if u, v, w :| TwoAndAny(text, p, u, v, w) && s == u.x + " * " + w.x {
      TwoAndAnyOnly(text, p, u, v, w);
    }
    if GapFrom(text, p) {
      GapValue(text, p);
      TwoAndAnyFound(text, p);
    } else {
      GapNone(text, p);
    }
  }

  lemma LettersBehind(text: string, q: nat)
    ensures LetterFrom(text, q) <==> LetterBehind(text, q)
  {
    forall i | q <= i < |text| ensures Letter(text[i]) <==> LetterCode(text[i] as int) { LettersExactly(text[i]); }
  }

  lemma TokenExactly(rule: Rule, text: string, p: nat, s: string)
    ensures TokenAt(rule, text, p, s) <==> Starts(text, p) && s in At(rule, text, p)
  {
    if Starts(text, p) {
      match rule
      case Words(stop) => WordExactly(text, stop, p, s);
      case Pairs => PairExactly(text, p, s);
      case Triples => TripleExactly(text, p, s);
      case Gaps => GapExactly(text, p, s);
    }
  }

  ghost function Tokens(rule: Rule, text: string): (nat, string) -> bool {
    (p: nat, s: string) => TokenAt(rule, text, p, s)
  }

  /** One token for each position from p on that has one, in the order of the text. */
  ghost predicate InOrder(token: (nat, string) -> bool, p: nat, tokens: seq<string>, ps: seq<nat>) {
    |tokens| == |ps| && Ascending(ps) && (forall i :: 0 <= i < |ps| ==> p <= ps[i] && token(ps[i], tokens[i])) &&
    forall q: nat, s :: p <= q && token(q, s) ==> q in ps
  }

  lemma OneAt(rule: Rule, text: string, p: nat)
    requires p < |text|
    ensures |At(rule, text, p)| <= 1
  {
  }

  lemma InOrderNone(token: (nat, string) -> bool, p: nat, rest: seq<string>, ps: seq<nat>)
    requires InOrder(token, p + 1, rest, ps) && forall s :: !token(p, s)
    ensures InOrder(token, p, rest, ps)
  {
  }

  lemma InOrderCons(token: (nat, string) -> bool, p: nat, here: string, rest: seq<string>, ps: seq<nat>)
    requires InOrder(token, p + 1, rest, ps) && token(p, here)
    ensures InOrder(token, p, [here] + rest, [p] + ps)
  {
    var all, tokens := [p] + ps, [here] + rest;
    forall q: nat | q in ps ensures p < q {
      var i :| 0 <= i < |ps| && ps[i] == q;
    }
    AscendingCons(p, ps);
    forall i | 0 <= i < |all| ensures p <= all[i] && token(all[i], tokens[i]) {
      assert i > 0 ==> all[i] == ps[i - 1] && tokens[i] == rest[i - 1];
    }
  }

  lemma InOrderWith(token: (nat, string) -> bool, p: nat, here: seq<string>, rest: seq<string>, ps: seq<nat>)
    returns (all: seq<nat>)
    requires InOrder(token, p + 1, rest, ps) && |here| <= 1 && forall s :: token(p, s) <==> s in here
    ensures InOrder(token, p, here + rest, all)
  {
    if here == [] {
      assert here + rest == rest;
      InOrderNone(token, p, rest, ps);
      all := ps;
    } else {
      assert here == [here[0]];
      InOrderCons(token, p, here[0], rest, ps);
      all := [p] + ps;
    }
  }

  lemma TokensAt(rule: Rule, text: string, p: nat, s: string)
    ensures Tokens(rule, text)(p, s) <==> Starts(text, p) && s in At(rule, text, p)
  {
    TokenExactly(rule, text, p, s);
  }

  lemma CollectNext(rule: Rule, text: string, p: nat)
    requires p < |text|
    ensures var here := if Starts(text, p) then At(rule, text, p) else [];
            Collect(rule, text, p) == here + Collect(rule, text, p + 1)
  {
    if !Starts(text, p) {
      var rest := Collect(rule, text, p + 1);
      assert [] + rest == rest;
    }
  }

  lemma {:induction false} CollectInOrder(rule: Rule, text: string, p: nat) returns (ps: seq<nat>)
    requires p <= |text|
    ensures InOrder(Tokens(rule, text), p, Collect(rule, text, p), ps)
    decreases |text| - p
  {
    var token := Tokens(rule, text);
    if p == |text| {
      ps := [];
      forall q: nat, s | p <= q ensures !token(q, s) { TokensAt(rule, text, q, s); }
    } else {
      ps := CollectInOrder(rule, text, p + 1);
      var here := if Starts(text, p) then At(rule, text, p) else [];
      OneAt(rule, text, p);
      CollectNext(rule, text, p);
      forall s ensures token(p, s) <==> s in here { TokensAt(rule, text, p, s); }
      ps := InOrderWith(token, p, here, Collect(rule, text, p + 1), ps);
    }
  }

  /** The tokens of the first half by the text: words, then pairs, then triples, then masked triples, each
      kind as far as it is asked for, in the order of the text and one for every place that has one. */
  lemma SpelledOfText(text: string, stop: set<string>, unitary: bool, binary: bool, ternary: bool, fuzzy: bool)
    returns (words: seq<string>, pairs: seq<string>, triples: seq<string>, gaps: seq<string>,
             at: (seq<nat>, seq<nat>, seq<nat>, seq<nat>))
    ensures Spelled(text, stop, unitary, binary, ternary, fuzzy) == words + pairs + triples + gaps
    ensures if unitary then InOrder(Tokens(Words(stop), text), 0, words, at.0) else words == []
    ensures if binary then InOrder(Tokens(Pairs, text), 0, pairs, at.1) else pairs == []
    ensures if ternary then InOrder(Tokens(Triples, text), 0, triples, at.2) else triples == []
    ensures if ternary && fuzzy then InOrder(Tokens(Gaps, text), 0, gaps, at.3) else gaps == []
  {
    words, pairs := CollectIf(unitary, Words(stop), text), CollectIf(binary, Pairs, text);
    triples, gaps := CollectIf(ternary, Triples, text), CollectIf(ternary && fuzzy, Gaps, text);
    var p0 := CollectInOrder(Words(stop), text, 0);
    var p1 := CollectInOrder(Pairs, text, 0);
    var p2 := CollectInOrder(Triples, text, 0);
    var p3 := CollectInOrder(Gaps, text, 0);
    at := (p0, p1, p2, p3);
  }
}
