/** What the default tokenizer's windows look like, and when its buffer gives them back. */
module TokenizerDefaultLaws {
  import opened GoStrings
  import opened TokenizerDefault

  predicate EndsInAmp(s: string) {
    s != "" && s[|s| - 1] == '&'
  }

  /** An occurrence is two ampersands side by side. */
  predicate AmpsAt(s: string, i: int) {
    0 <= i && i + 2 <= |s| && s[i] == '&' && s[i + 1] == '&'
  }

  lemma OccursAmps(s: string, i: int)
    ensures OccursAt(s, AMPS, i) <==> AmpsAt(s, i)
  {
    if 0 <= i && i + 2 <= |s| {
      assert s[i..i + 2] == [s[i], s[i + 1]];
    }
  }

  lemma ContainsAmps(s: string)
    ensures Contains(s, AMPS) <==> exists i :: AmpsAt(s, i)
  {
    forall i ensures OccursAt(s, AMPS, i) <==> AmpsAt(s, i) { OccursAmps(s, i); }
  }

  lemma IndexAmps(a: string)
    ensures Index(a + AMPS, AMPS) == |a| <==> !Contains(a, AMPS) && !EndsInAmp(a)
  {
    var s := a + AMPS;
    forall i ensures OccursAt(s, AMPS, i) <==> AmpsAt(s, i) { OccursAmps(s, i); }
    forall i | 0 <= i && i + 2 <= |a| ensures AmpsAt(s, i) <==> AmpsAt(a, i) {
      assert s[i] == a[i] && s[i + 1] == a[i + 1];
    }
    ContainsAmps(a);
    assert AmpsAt(s, |a|);
    if |a| > 0 {
      assert AmpsAt(s, |a| - 1) <==> EndsInAmp(a);
    }
    if i :| AmpsAt(a, i) {
      assert AmpsAt(s, i);
    }
  }

  /** Every window stays one part: none holds the mark between windows, and none but the last ends in a
      character that would make such a mark one position early. */
  ghost predicate Separable(windows: seq<string>) {
    (forall i :: 0 <= i < |windows| ==> !Contains(windows[i], AMPS)) &&
    (forall i :: 0 <= i < |windows| - 1 ==> !EndsInAmp(windows[i]))
  }

  lemma SplitJoinAmps(windows: seq<string>)
    requires |windows| >= 1
    ensures Split(Join(windows, AMPS), AMPS) == windows <==> Separable(windows)
  {
    SplitJoin(windows, AMPS);
    forall i | 0 <= i < |windows|
      ensures Index(windows[i] + AMPS, AMPS) == |windows[i]| <==> !Contains(windows[i], AMPS) && !EndsInAmp(windows[i])
    {
      IndexAmps(windows[i]);
    }
  }

  /** CombineToken returns exactly the windows it wrote if and only if they are separable; whatever the
      words hold, no character of the windows is lost. */
  lemma CombinedExactly(src: seq<string>, step: int, addSpacer: bool, chain: bool)
    requires |src| >= 2
    ensures var windows, r := Windows(src, step, addSpacer, chain, |src| - 1), Combined(src, step, addSpacer, chain);
            (r == windows <==> Separable(windows)) && Join(r, AMPS) == Join(windows, AMPS)
  {
    var windows := Windows(src, step, addSpacer, chain, |src| - 1);
    SplitJoinAmps(windows);
    JoinSplit(Join(windows, AMPS), AMPS);
  }

  // ---- the same condition on the words, for windows with spaces

  lemma ContainsAcrossSpace(a: string, b: string)
    ensures Contains(a + " " + b, AMPS) <==> Contains(a, AMPS) || Contains(b, AMPS)
  {
    var s, n := a + " " + b, |a| + 1;
    assert |s| == n + |b| && s[|a|] == ' ';
    forall i ensures AmpsAt(s, i) <==> AmpsAt(a, i) || AmpsAt(b, i - n) {
      assert 0 <= i < |a| ==> s[i] == a[i];
      assert n <= i < |s| ==> s[i] == b[i - n];
    }
    ContainsAmps(s);
    ContainsAmps(a);
    ContainsAmps(b);
    if i :| AmpsAt(b, i) {
      assert AmpsAt(s, n + i);
    }
  }

  lemma ShortHoldsNone(s: string)
    requires |s| < 2
    ensures !Contains(s, AMPS)
  {
    forall i ensures !OccursAt(s, AMPS, i) {}
  }

  lemma {:induction false} ContainsInJoin(words: seq<string>)
    ensures Contains(Join(words, " "), AMPS) <==> exists j :: 0 <= j < |words| && Contains(words[j], AMPS)
  {
    if |words| == 0 {
      ShortHoldsNone("");
    } else if |words| > 1 {
      var rest := words[1..];
      ContainsInJoin(rest);
      ContainsAcrossSpace(words[0], Join(rest, " "));
      assert forall j :: 1 <= j < |words| ==> words[j] == rest[j - 1];
      if exists j :: 0 <= j < |rest| && Contains(rest[j], AMPS) {
        var j :| 0 <= j < |rest| && Contains(rest[j], AMPS);
        assert Contains(words[j + 1], AMPS);
      }
    }
  }

  lemma {:induction false} LastOfJoin(words: seq<string>)
    requires words != []
    ensures EndsInAmp(Join(words, " ")) <==> EndsInAmp(words[|words| - 1])
  {
    if |words| > 1 {
      var rest := words[1..];
      LastOfJoin(rest);
      var tail := Join(rest, " ");
      assert rest[|rest| - 1] == words[|words| - 1];
      assert Join(words, " ") == words[0] + " " + tail;
    }
  }

  /** The window at i shows no word that holds "&&". */
  ghost predicate ShowsNoAmps(src: seq<string>, step: int, chain: bool, i: nat)
    requires i < |src|
  {
    forall j :: 0 <= j < Width(|src|, step, i) ==> !Contains(Shown(src, step, chain, i, j), AMPS)
  }

  /** The window at i is full and its last word ends in '&'. */
  ghost predicate ClosedByAmp(src: seq<string>, step: int, chain: bool, i: nat)
    requires i < |src|
  {
    0 < step && i + step <= |src| && EndsInAmp(Shown(src, step, chain, i, step - 1))
  }

  lemma WindowHoldsAmps(src: seq<string>, step: int, chain: bool, i: nat)
    requires i < |src|
    ensures Contains(Window(src, step, true, chain, i), AMPS) <==> !ShowsNoAmps(src, step, chain, i)
  {
    var w, n := Window(src, step, true, chain, i), Width(|src|, step, i);
    var words := ShownWords(src, step, chain, i, n);
    ContainsInJoin(words);
    if 0 < n < step {
      ContainsAcrossSpace(Join(words, " "), "");
      ShortHoldsNone("");
      assert w == Join(words, " ") + " " + "";
    } else {
      assert w == Join(words, " ") + "" == Join(words, " ");
    }
  }

  lemma WindowEndsInAmp(src: seq<string>, step: int, chain: bool, i: nat)
    requires i < |src|
    ensures EndsInAmp(Window(src, step, true, chain, i)) <==> ClosedByAmp(src, step, chain, i)
  {
    var w, n := Window(src, step, true, chain, i), Width(|src|, step, i);
    var words := ShownWords(src, step, chain, i, n);
    if 0 < n < step {
      assert w[|w| - 1] == ' ';
    } else {
      assert w == Join(words, " ") + "" == Join(words, " ");
      if n > 0 {
        LastOfJoin(words);
      }
    }
  }

  /** For windows with spaces the condition is one on the words: none that is shown holds "&&", and none
      that closes a full window other than the last ends in '&'. */
  lemma CombinedOfWords(src: seq<string>, step: int, chain: bool)
    requires |src| >= 2
    ensures Combined(src, step, true, chain) == Windows(src, step, true, chain, |src| - 1) <==>
            (forall i :: 0 <= i < |src| - 1 ==> ShowsNoAmps(src, step, chain, i)) &&
            (forall i :: 0 <= i < |src| - 2 ==> !ClosedByAmp(src, step, chain, i))
  {
    var windows := Windows(src, step, true, chain, |src| - 1);
    CombinedExactly(src, step, true, chain);
    forall i | 0 <= i < |windows| ensures Contains(windows[i], AMPS) <==> !ShowsNoAmps(src, step, chain, i) {
      WindowHoldsAmps(src, step, chain, i);
    }
    forall i | 0 <= i < |windows| ensures EndsInAmp(windows[i]) <==> ClosedByAmp(src, step, chain, i) {
      WindowEndsInAmp(src, step, chain, i);
    }
  }

  // ---- the two sizes Cut asks for

  /** A pair window is two neighbours and a space, with or without the fuzzy flag. */
  lemma PairWindow(src: seq<string>, chain: bool, i: nat)
    requires i + 1 < |src|
    ensures Window(src, 2, true, chain, i) == src[i] + " " + src[i + 1]
  {
    var words := ShownWords(src, 2, chain, i, 2);
    assert words == [src[i], src[i + 1]] && words[1..] == [src[i + 1]];
    assert Join(words[1..], " ") == src[i + 1];
  }

  /** A triple window is three neighbours, the middle one masked by the fuzzy flag; but one is written for
      the last two words as well, and it ends in a space with its third word missing. */
  lemma TripleWindow(src: seq<string>, chain: bool, i: nat)
    requires i + 1 < |src|
    ensures var middle := if chain then "*" else src[i + 1];
            Window(src, 3, true, chain, i) ==
            src[i] + " " + middle + " " + if i + 2 < |src| then src[i + 2] else ""
  {
    var middle := if chain then "*" else src[i + 1];
    if i + 2 < |src| {
      var words := ShownWords(src, 3, chain, i, 3);
      assert words == [src[i], middle, src[i + 2]];
      var rest := words[1..];
      assert rest == [middle, src[i + 2]] && rest[1..] == [src[i + 2]];
      assert Join(rest, " ") == middle + " " + src[i + 2];
      assert Join(words, " ") == src[i] + " " + (middle + " " + src[i + 2]);
    } else {
      var words := ShownWords(src, 3, chain, i, 2);
      assert words == [src[i], middle] && words[1..] == [middle];
      assert Join(words, " ") == src[i] + " " + middle;
    }
  }

  /** The pairs come back exactly when no word holds "&&" and none but the first and the last ends in '&'. */
  lemma PairsExactly(src: seq<string>, chain: bool)
    requires |src| >= 2
    ensures Combined(src, 2, true, chain) == Windows(src, 2, true, chain, |src| - 1) <==>
            (forall k :: 0 <= k < |src| ==> !Contains(src[k], AMPS)) &&
            (forall k :: 0 < k < |src| - 1 ==> !EndsInAmp(src[k]))
  {
    CombinedOfWords(src, 2, chain);
    forall i | 0 <= i < |src| - 1
      ensures ShowsNoAmps(src, 2, chain, i) <==> !Contains(src[i], AMPS) && !Contains(src[i + 1], AMPS)
      ensures ClosedByAmp(src, 2, chain, i) <==> EndsInAmp(src[i + 1])
    {
      assert Shown(src, 2, chain, i, 0) == src[i] && Shown(src, 2, chain, i, 1) == src[i + 1];
    }
    if forall i :: 0 <= i < |src| - 1 ==> ShowsNoAmps(src, 2, chain, i) {
      forall k | 0 <= k < |src| ensures !Contains(src[k], AMPS) {
        assert ShowsNoAmps(src, 2, chain, if k == 0 then 0 else k - 1);
      }
    }
    if forall i :: 0 <= i < |src| - 2 ==> !ClosedByAmp(src, 2, chain, i) {
      forall k | 0 < k < |src| - 1 ensures !EndsInAmp(src[k]) {
        assert !ClosedByAmp(src, 2, chain, k - 1);
      }
    }
  }

  lemma TripleShows(src: seq<string>, chain: bool, i: nat)
    requires i + 1 < |src|
    ensures ShowsNoAmps(src, 3, chain, i) <==>
            !Contains(src[i], AMPS) && (chain || !Contains(src[i + 1], AMPS)) &&
            (i + 2 < |src| ==> !Contains(src[i + 2], AMPS))
    ensures ClosedByAmp(src, 3, chain, i) <==> i + 2 < |src| && EndsInAmp(src[i + 2])
  {
    ShortHoldsNone("*");
    assert Shown(src, 3, chain, i, 0) == src[i];
    assert Shown(src, 3, chain, i, 1) == if chain then "*" else src[i + 1];
    assert i + 2 < |src| ==> Shown(src, 3, chain, i, 2) == src[i + 2];
  }

  /** The triples come back exactly when no word that is shown holds "&&" and none from the third on ends
      in '&'; the one word never shown is the second of two under the mask. */
  lemma TriplesExactly(src: seq<string>, chain: bool)
    requires |src| >= 2
    ensures Combined(src, 3, true, chain) == Windows(src, 3, true, chain, |src| - 1) <==>
            (forall k :: 0 <= k < |src| && !(chain && |src| == 2 && k == 1) ==> !Contains(src[k], AMPS)) &&
            (forall k :: 2 <= k < |src| ==> !EndsInAmp(src[k]))
  {
    CombinedOfWords(src, 3, chain);
    forall i | 0 <= i < |src| - 1
      ensures ShowsNoAmps(src, 3, chain, i) <==>
              !Contains(src[i], AMPS) && (chain || !Contains(src[i + 1], AMPS)) &&
              (i + 2 < |src| ==> !Contains(src[i + 2], AMPS))
      ensures ClosedByAmp(src, 3, chain, i) <==> i + 2 < |src| && EndsInAmp(src[i + 2])
    {
      TripleShows(src, chain, i);
    }
    if forall i :: 0 <= i < |src| - 1 ==> ShowsNoAmps(src, 3, chain, i) {
      forall k | 0 <= k < |src| && !(chain && |src| == 2 && k == 1) ensures !Contains(src[k], AMPS) {
        if k < |src| - 1 {
          assert ShowsNoAmps(src, 3, chain, k);
          TripleShows(src, chain, k);
        } else if |src| == 2 {
          TripleShows(src, chain, 0);
        } else {
          TripleShows(src, chain, k - 2);
        }
      }
    }
    if forall i :: 0 <= i < |src| - 2 ==> !ClosedByAmp(src, 3, chain, i) {
      forall k | 2 <= k < |src| ensures !EndsInAmp(src[k]) {
        assert !ClosedByAmp(src, 3, chain, k - 2);
      }
    }
  }

  /** Fewer than two words still give one token, the empty one. */
  lemma CombinedOfFew(src: seq<string>, step: int, addSpacer: bool, chain: bool)
    ensures Combined(src, step, addSpacer, chain) == [""] <==>
            |src| < 2 || Windows(src, step, addSpacer, chain, |src| - 1) == [""]
  {
    if |src| >= 2 {
      var windows := Windows(src, step, addSpacer, chain, |src| - 1);
      CombinedExactly(src, step, addSpacer, chain);
      ShortHoldsNone("");
      assert Join([""], AMPS) == "";
      assert |windows| >= 2 ==> |Join(windows, AMPS)| >= 2;
    }
  }

  // ---- what Cut keeps

  /** Only admitted words are combined: they start with an ASCII letter or a rune from 255 on, hold no line
      break and none of the excluded strings. */
  lemma {:induction false} DataSound(words: seq<string>, excludeChars: set<string>, s: string)
    requires s in Data(words, excludeChars)
    ensures s != "" && (65 <= s[0] as int <= 90 || 97 <= s[0] as int <= 122 || s[0] as int >= 255)
    ensures '\n' !in s && '\r' !in s
    ensures forall c :: c in excludeChars ==> !Contains(s, c)
    ensures exists k :: 0 <= k < |words| && s == Cleaned(words[k])
  {
    var first := Cleaned(words[0]);
    if s == first && Admitted(s, excludeChars) {
      var trimmed := TrimSpace(words[0]);
      WithoutSound(trimmed, '\n');
      WithoutSound(Without(trimmed, '\n'), '\r');
    } else {
      DataSound(words[1..], excludeChars, s);
      var k :| 0 <= k < |words[1..]| && s == Cleaned(words[1..][k]);
      assert words[k + 1] == words[1..][k];
    }
  }

  /** White space by Unicode's list. */
  const WHITE_SPACE: seq<int> :=
    [0x9, 0xA, 0xB, 0xC, 0xD, 0x20, 0x85, 0xA0, 0x1680, 0x2000, 0x2001, 0x2002, 0x2003, 0x2004, 0x2005, 0x2006,
     0x2007, 0x2008, 0x2009, 0x200A, 0x2028, 0x2029, 0x202F, 0x205F, 0x3000]

  lemma SpacesExactly(c: char)
    ensures Space(c) <==> c as int in WHITE_SPACE
  {
  }

  lemma OneInside(s: string, rest: string, a: nat, b: nat)
    requires s != "" && rest == s[1..] && a <= b <= |rest|
    ensures rest[a..b] == s[a + 1..b + 1] && forall i :: 0 < i < |s| ==> s[i] == rest[i - 1]
  {
  }

  lemma {:induction false} TrimmedPart(s: string) returns (a: nat, b: nat)
    ensures a <= b <= |s| && TrimSpace(s) == s[a..b]
    ensures forall i :: 0 <= i < a || b <= i < |s| ==> Space(s[i])
    decreases |s|
  {
    a, b := 0, |s|;
    if s != "" && Space(s[0]) {
      var rest := s[1..];
      a, b := TrimmedPart(rest);
      OneInside(s, rest, a, b);
      a, b := a + 1, b + 1;
    } else if s != "" && Space(s[|s| - 1]) {
      var rest := s[..|s| - 1];
      a, b := TrimmedPart(rest);
      assert rest[a..b] == s[a..b];
    }
  }

  /** A cleaned word is the word between its outer white space, less its line breaks. */
  lemma CleanedExactly(word: string) returns (a: nat, b: nat)
    ensures a <= b <= |word| && Cleaned(word) == Without(Without(word[a..b], '\n'), '\r')
    ensures forall i :: 0 <= i < a || b <= i < |word| ==> Space(word[i])
    ensures a < b ==> !Space(word[a]) && !Space(word[b - 1])
  {
    a, b := TrimmedPart(word);
    var trimmed := TrimSpace(word);
    assert a < b ==> trimmed[0] == word[a] && trimmed[|trimmed| - 1] == word[b - 1];
  }

  /** The words that are kept: cleaned, they start with A to Z, a to z or a rune from 255 on and hold none of
      the excluded strings. */
  ghost predicate Keeps(word: string, excludeChars: set<string>) {
    var s := Cleaned(word);
    s != "" && (65 <= s[0] as int <= 90 || 97 <= s[0] as int <= 122 || s[0] as int >= 255) &&
    forall c :: c in excludeChars ==> !Contains(s, c)
  }

  lemma AdmittedExactly(word: string, excludeChars: set<string>)
    ensures Admitted(Cleaned(word), excludeChars) <==> Keeps(word, excludeChars)
  {
  }

  function DataPlaces(words: seq<string>, excludeChars: set<string>, p: nat): seq<nat>
    requires p <= |words|
    decreases |words| - p
  {
    if p == |words| then []
    else if Admitted(Cleaned(words[p]), excludeChars) then [p] + DataPlaces(words, excludeChars, p + 1)
    else DataPlaces(words, excludeChars, p + 1)
  }

  lemma {:induction false} DataPlacesAt(words: seq<string>, excludeChars: set<string>, p: nat)
    requires p <= |words|
    ensures Ascending(DataPlaces(words, excludeChars, p))
    ensures forall q: nat :: q in DataPlaces(words, excludeChars, p) <==>
                             p <= q < |words| && Keeps(words[q], excludeChars)
    decreases |words| - p
  {
    if p < |words| {
      DataPlacesAt(words, excludeChars, p + 1);
      AdmittedExactly(words[p], excludeChars);
      if Keeps(words[p], excludeChars) { AscendingCons(p, DataPlaces(words, excludeChars, p + 1)); }
    }
  }

  lemma {:induction false} DataFrom(words: seq<string>, excludeChars: set<string>, p: nat)
    requires p <= |words|
    ensures var ps, data := DataPlaces(words, excludeChars, p), Data(words[p..], excludeChars);
            |data| == |ps| && forall i :: 0 <= i < |ps| ==> ps[i] < |words| && data[i] == Cleaned(words[ps[i]])
    decreases |words| - p
  {
    if p < |words| {
      DataFrom(words, excludeChars, p + 1);
      DataStep(words, excludeChars, p);
    }
  }

  /** Every word that is kept is there, once and in its place, and no other one. */
  lemma DataExactly(words: seq<string>, excludeChars: set<string>) returns (ps: seq<nat>)
    ensures Ascending(ps) && forall q: nat :: q in ps <==> q < |words| && Keeps(words[q], excludeChars)
    ensures var data := Data(words, excludeChars);
            |data| == |ps| && forall i :: 0 <= i < |ps| ==> ps[i] < |words| && data[i] == Cleaned(words[ps[i]])
  {
    ps := DataPlaces(words, excludeChars, 0);
    DataPlacesAt(words, excludeChars, 0);
    DataFrom(words, excludeChars, 0);
    assert words[0..] == words;
  }

  lemma {:induction false} ExceptSound(tokens: seq<string>, stopWords: set<string>, s: string)
    ensures s in Except(tokens, stopWords) <==> s in tokens && s !in stopWords
  {
    if tokens != [] {
      ExceptSound(tokens[1..], stopWords, s);
    }
  }

  /** First the pairs, then the triples, then the words, each block asked for less its stop words. */
  lemma SelectedInOrder(words: seq<string>, stopWords: set<string>, excludeChars: set<string>,
                        unitary: bool, binary: bool, ternary: bool, fuzzy: bool)
    returns (pairs: seq<string>, triples: seq<string>, singles: seq<string>)
    ensures Selected(words, stopWords, excludeChars, unitary, binary, ternary, fuzzy) == pairs + triples + singles
    ensures var data := Data(words, excludeChars);
            pairs == (if binary then Except(Combined(data, 2, true, fuzzy), stopWords) else []) &&
            triples == (if ternary then Except(Combined(data, 3, true, fuzzy), stopWords) else []) &&
            singles == if unitary then Except(data, stopWords) else []
  {
    var data := Data(words, excludeChars);
    pairs := if binary then Except(Combined(data, 2, true, fuzzy), stopWords) else [];
    triples := if ternary then Except(Combined(data, 3, true, fuzzy), stopWords) else [];
    singles := if unitary then Except(data, stopWords) else [];
  }

  /** No stop word is ever returned, and each flag contributes its own block whatever the others are. */
  lemma SelectedBlocks(words: seq<string>, stopWords: set<string>, excludeChars: set<string>,
                       unitary: bool, binary: bool, ternary: bool, fuzzy: bool, s: string)
    ensures s in Selected(words, stopWords, excludeChars, unitary, binary, ternary, fuzzy) <==>
            s !in stopWords &&
            ((unitary && s in Data(words, excludeChars)) ||
             (binary && s in Combined(Data(words, excludeChars), 2, true, fuzzy)) ||
             (ternary && s in Combined(Data(words, excludeChars), 3, true, fuzzy)))
  {
    var data := Data(words, excludeChars);
    ExceptSound(data, stopWords, s);
    ExceptSound(Combined(data, 2, true, fuzzy), stopWords, s);
    ExceptSound(Combined(data, 3, true, fuzzy), stopWords, s);
  }
}
