/** The default tokenizer: words from a segmenter, and windows of neighbouring words written into one
    buffer with "&&" between them and split again. */
module TokenizerDefault {
  import opened GoStrings

  const AMPS: string := "&&"

  // ---- windows

  function Spacer(addSpacer: bool): string {
    if addSpacer then " " else ""
  }

  /** How many words the window at i shows: as many as there are, up to step. */
  function Width(l: nat, step: int, i: nat): (n: nat)
    requires i < l
    ensures n == step || n == l - i || (n == 0 && step < 0)
  {
    if step <= 0 then 0 else if i + step <= l then step else l - i
  }

  /** The j-th word of the window at i: in a chain of three or more, inner words are masked. */
  function Shown(src: seq<string>, step: int, chain: bool, i: nat, j: nat): string
    requires i + j < |src|
  {
    if step > 2 && chain && 0 < j < step - 1 then "*" else src[i + j]
  }

  function ShownWords(src: seq<string>, step: int, chain: bool, i: nat, n: nat): (words: seq<string>)
    requires i + n <= |src|
    ensures |words| == n
    ensures forall j :: 0 <= j < n ==> words[j] == Shown(src, step, chain, i, j)
  {
    seq(n, j requires 0 <= j < n => Shown(src, step, chain, i, j))
  }

  /** The window at i: its words joined by the spacer, and one more spacer when words are missing. */
  function Window(src: seq<string>, step: int, addSpacer: bool, chain: bool, i: nat): string
    requires i < |src|
  {
    var n, sp := Width(|src|, step, i), Spacer(addSpacer);
    Join(ShownWords(src, step, chain, i, n), sp) + if 0 < n < step then sp else ""
  }

  function Windows(src: seq<string>, step: int, addSpacer: bool, chain: bool, n: nat): (windows: seq<string>)
    requires n <= |src|
    ensures |windows| == n
    ensures forall i :: 0 <= i < n ==> windows[i] == Window(src, step, addSpacer, chain, i)
  {
    seq(n, i requires 0 <= i < n => Window(src, step, addSpacer, chain, i))
  }

  /** What CombineToken returns: one window for every word but the last, put through the buffer. */
  function Combined(src: seq<string>, step: int, addSpacer: bool, chain: bool): seq<string> {
    if |src| < 2 then [""] else Split(Join(Windows(src, step, addSpacer, chain, |src| - 1), AMPS), AMPS)
  }

  lemma {:induction false} JoinSnoc(parts: seq<string>, z: string, sep: string)
    ensures Join(parts + [z], sep) == if parts == [] then z else Join(parts, sep) + sep + z
  {
    var whole := parts + [z];
    if |parts| > 0 {
      var rest := parts[1..];
      assert whole[0] == parts[0] && whole[1..] == rest + [z];
      JoinSnoc(rest, z, sep);
      if |parts| > 1 {
        var a, b := parts[0] + sep, Join(rest, sep);
        assert a + (b + sep + z) == (a + b) + sep + z;
      }
    }
  }

  /** What the inner loop has written after j words. */
  function Written(src: seq<string>, step: int, addSpacer: bool, chain: bool, i: nat, j: nat): string
    requires i + j <= |src|
  {
    Join(ShownWords(src, step, chain, i, j), Spacer(addSpacer)) + if 0 < j < step then Spacer(addSpacer) else ""
  }

  lemma WrittenStep(src: seq<string>, step: int, addSpacer: bool, chain: bool, i: nat, j: nat)
    requires i + j < |src| && j < step
    ensures Written(src, step, addSpacer, chain, i, j + 1) ==
            Written(src, step, addSpacer, chain, i, j) + Shown(src, step, chain, i, j) +
            if j + 1 == step then "" else Spacer(addSpacer)
  {
    var sp, word := Spacer(addSpacer), Shown(src, step, chain, i, j);
    var before, after := ShownWords(src, step, chain, i, j), ShownWords(src, step, chain, i, j + 1);
    assert after == before + [word];
    JoinSnoc(before, word, sp);
  }

  /** What the outer loop has written after n windows. */
  function Ended(windows: seq<string>, last: bool): string {
    Join(windows, AMPS) + if windows == [] || last then "" else AMPS
  }

  lemma SpacerDue(j: nat, step: int)
    requires j < step
    ensures (j + 1) % step != 0 <==> j + 1 != step
  {
  }

  lemma EndedStep(windows: seq<string>, z: string, last: bool)
    ensures Ended(windows + [z], last) == Ended(windows, false) + z + if last then "" else AMPS
  {
    JoinSnoc(windows, z, AMPS);
  }

  /** The inner loop: one window. */
  method WriteWindow(src: seq<string>, step: int, addSpacer: bool, chain: bool, i: nat) returns (buf: string)
    requires i < |src|
    ensures buf == Window(src, step, addSpacer, chain, i)
  {
    buf := "";
    var j := 0;
    while j < step && i + j < |src|
      invariant 0 <= j && i + j <= |src| && (j <= step || j == 0)
      invariant buf == Written(src, step, addSpacer, chain, i, j)
    {
      WrittenStep(src, step, addSpacer, chain, i, j);
      SpacerDue(j, step);
      var masked := false;
      if step > 2 && chain && j != 0 && j != step - 1 {
        masked := true;
      }
      var word := if masked then "*" else src[i + j];
      buf := buf + word;
      if addSpacer && (j + 1) % step != 0 {
        buf := buf + " ";
      }
      j := j + 1;
    }
    assert j == Width(|src|, step, i);
  }

  method CombineToken(src: seq<string>, step: int, addSpacer: bool, chain: bool) returns (r: seq<string>)
    ensures r == Combined(src, step, addSpacer, chain)
  {
    var buf := "";
    var l := |src|;
    var i := 0;
    while i < l - 1
      invariant 0 <= i && (l < 2 ==> i == 0) && (l >= 2 ==> i <= l - 1)
      invariant buf == Ended(Windows(src, step, addSpacer, chain, i), i == l - 1)
    {
      ghost var before := Windows(src, step, addSpacer, chain, i);
      var window := WriteWindow(src, step, addSpacer, chain, i);
      EndedStep(before, window, i == l - 2);
      assert Windows(src, step, addSpacer, chain, i + 1) == before + [window];
      buf := buf + window;
      if i != l - 2 {
        buf := buf + AMPS;
      }
      i := i + 1;
    }
    ghost var windows := Windows(src, step, addSpacer, chain, i);
    if l < 2 {
      assert buf == "" by { assert windows == []; }
    } else {
      assert buf == Join(windows, AMPS) + "" == Join(windows, AMPS);
    }
    r := Split(buf, AMPS);
  }

  // ---- the words that are kept, and Cut

  predicate Space(c: char) {
    var n := c as int;
    9 <= n <= 13 || n == 32 || n == 0x85 || n == 0xA0 || n == 0x1680 || 0x2000 <= n <= 0x200A ||
    n == 0x2028 || n == 0x2029 || n == 0x202F || n == 0x205F || n == 0x3000
  }

  /** strings.TrimSpace. */
  function TrimSpace(s: string): (r: string)
    ensures r == "" || (!Space(r[0]) && !Space(r[|r| - 1]))
  {
    if s == "" then ""
    else if Space(s[0]) then TrimSpace(s[1..])
    else if Space(s[|s| - 1]) then TrimSpace(s[..|s| - 1])
    else s
  }

  function Cleaned(word: string): string {
    Without(Without(TrimSpace(word), '\n'), '\r')
  }

  predicate Letter(c: char) {
    'A' <= c <= 'Z' || 'a' <= c <= 'z'
  }

  predicate Holds(s: string, excludeChars: set<string>) {
    exists c :: c in excludeChars && Index(s, c) != -1
  }

  predicate Admitted(s: string, excludeChars: set<string>) {
    s != "" && (s[0] as int >= 255 || Letter(s[0])) && !Holds(s, excludeChars)
  }

  /** The cleaned words that are admitted, in order. */
  function Data(words: seq<string>, excludeChars: set<string>): seq<string> {
    if words == [] then []
    else
      var s := Cleaned(words[0]);
      if Admitted(s, excludeChars) then [s] + Data(words[1..], excludeChars) else Data(words[1..], excludeChars)
  }

  lemma DataStep(words: seq<string>, excludeChars: set<string>, k: nat)
    requires k < |words|
    ensures var s, rest := Cleaned(words[k]), Data(words[k + 1..], excludeChars);
            Data(words[k..], excludeChars) == if Admitted(s, excludeChars) then [s] + rest else rest
  {
    var tail := words[k..];
    assert tail[0] == words[k] && tail[1..] == words[k + 1..];
  }

  /** What Cut returns for the segmenter's words: the blocks of pairs, of triples and of words. */
  function Selected(words: seq<string>, stopWords: set<string>, excludeChars: set<string>,
                    unitary: bool, binary: bool, ternary: bool, fuzzy: bool): seq<string>
  {
    var data := Data(words, excludeChars);
    (if binary then Except(Combined(data, 2, true, fuzzy), stopWords) else []) +
    (if ternary then Except(Combined(data, 3, true, fuzzy), stopWords) else []) +
    (if unitary then Except(data, stopWords) else [])
  }

  class TokenizerDefault {
    const stopWords: set<string>
    const excludeChars: set<string>

    constructor (stopWords: set<string>, excludeChars: set<string>)
      ensures this.stopWords == stopWords && this.excludeChars == excludeChars
    {
      this.stopWords := stopWords;
      this.excludeChars := excludeChars;
    }

    /** The loop over the excluded strings, in any order, up to the first one that occurs. */
    method Matched(s: string) returns (matched: bool)
      ensures matched <==> Holds(s, excludeChars)
    {
      matched := false;
      var rest := excludeChars;
      while rest != {}
        invariant rest <= excludeChars && !matched
        invariant forall c :: c in excludeChars - rest ==> Index(s, c) == -1
        decreases |rest|
      {
        var c :| c in rest;
        if Index(s, c) != -1 {
          matched := true;
          return;
        }
        rest := rest - {c};
      }
    }

    method Clean(word: string) returns (s: string)
      ensures s == Cleaned(word)
    {
      s := TrimSpace(word);
      ReplaceIsWithout(s, '\n');
      s := ReplaceAll(s, ['\n'], "");
      ReplaceIsWithout(s, '\r');
      s := ReplaceAll(s, ['\r'], "");
    }

    method Admit(s: string) returns (r: bool)
      ensures r <==> Admitted(s, excludeChars)
    {
      if |s| < 1 {
        return false;
      }
      if (s[0] as int) < 255 && !Letter(s[0]) {
        return false;
      }
      var matched := Matched(s);
      return !matched;
    }

    method Words(words: seq<string>) returns (data: seq<string>)
      ensures data == Data(words, excludeChars)
    {
      data := [];
      for k := 0 to |words|
        invariant data + Data(words[k..], excludeChars) == Data(words, excludeChars)
      {
        var s := Clean(words[k]);
        var admitted := Admit(s);
        ghost var before, rest := data, Data(words[k + 1..], excludeChars);
        DataStep(words, excludeChars, k);
        if admitted {
          data := data + [s];
          Regroup(before, [s], rest);
        }
      }
    }

    /** The loop of each block: what is no stop word is appended. */
    method Append(tokens: seq<string>, more: seq<string>) returns (r: seq<string>)
      ensures r == tokens + Except(more, stopWords)
    {
      r := tokens;
      for k := 0 to |more|
        invariant r + Except(more[k..], stopWords) == tokens + Except(more, stopWords)
      {
        ghost var before, rest := r, Except(more[k + 1..], stopWords);
        ExceptStep(more, stopWords, k);
        if more[k] !in stopWords {
          r := r + [more[k]];
          Regroup(before, [more[k]], rest);
        }
      }
    }

    method Cut(words: seq<string>, unitary: bool, binary: bool, ternary: bool, fuzzy: bool)
      returns (tokens: seq<string>)
      ensures tokens == Selected(words, stopWords, excludeChars, unitary, binary, ternary, fuzzy)
    {
      var data := Words(words);
      ghost var b1 := if binary then Except(Combined(data, 2, true, fuzzy), stopWords) else [];
      ghost var b2 := if ternary then Except(Combined(data, 3, true, fuzzy), stopWords) else [];
      tokens := [];
      if binary {
        var pairs := CombineToken(data, 2, true, fuzzy);
        tokens := Append(tokens, pairs);
      }
      assert tokens == b1;
      if ternary {
        var triples := CombineToken(data, 3, true, fuzzy);
        tokens := Append(tokens, triples);
      }
      assert tokens == b1 + b2;
      if unitary {
        tokens := Append(tokens, data);
      }
    }
  }
}
