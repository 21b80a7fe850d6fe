/** The basic tokenizer: cuts a text, given as its runes, at separators and around every rune above 255. */
module TokenizerBasic {
  import opened GoStrings

  const BOM: char := '\U{FEFF}'

  predicate High(c: char) {
    c as int > 255
  }

  // ---- separators

  /** The first byte of a rune's UTF-8 form, as a rune. */
  function FirstByte(c: char): (b: char)
    ensures !High(b)
    ensures c as int < 0x80 ==> b == c
  {
    var n := c as int;
    if n < 0x80 then c
    else if n < 0x800 then (0xC0 + n / 0x40) as char
    else if n < 0x10000 then (0xE0 + n / 0x1000) as char
    else (0xF0 + n / 0x40000) as char
  }

  const DEFAULT_SEPARATOR: seq<string> :=
    ["\t", "\n", "\r", " ", "@", "#", ",", ".", ":", "?", "/", "\\", "'", ",", "!", ";", "(", ")", "-",
     "\U{FF1A}", "\U{FF08}", "\U{FF09}", "\U{3002}", "\U{FF0C}", "[", "]",
     "\U{FF1F}", "\U{FF01}", "\U{3001}", "\U{201D}"]

  function SeparatorSet(list: seq<string>): set<char>
    requires forall i :: 0 <= i < |list| ==> |list[i]| > 0
  {
    set i | 0 <= i < |list| :: FirstByte(list[i][0])
  }

  // ---- the cut

  /** How many runes from the start are low and no separators. */
  function LowRun(src: string, sep: set<char>): (n: nat)
    ensures n <= |src|
    ensures n > 0 <==> src != [] && !High(src[0]) && src[0] !in sep
  {
    if src == [] || High(src[0]) || src[0] in sep then 0 else 1 + LowRun(src[1..], sep)
  }

  /** The tokens of a text without byte order marks. */
  function Tokens(src: string, sep: set<char>): seq<string>
    decreases |src|
  {
    if src == [] then []
    else if src[0] in sep then Tokens(src[1..], sep)
    else if High(src[0]) then [src[..1]] + Tokens(src[1..], sep)
    else
      var n := LowRun(src, sep);
      [src[..n]] + Tokens(src[n..], sep)
  }

  /** Where the first loop of Cut marks a position: at separators, at high runes, and after them. */
  predicate Marked(src: string, sep: set<char>, i: nat)
    requires i < |src|
  {
    src[i] in sep || High(src[i]) || (i > 0 && High(src[i - 1]))
  }

  /** What Cut makes of the stretch from one mark to the next. */
  function Stretch(src: string, sep: set<char>, last: nat, i: nat): seq<string>
    requires last < i <= |src|
  {
    if src[last] in sep then (if last + 1 < i then [src[last + 1..i]] else []) else [src[last..i]]
  }

  lemma {:induction false} LowRunStops(src: string, sep: set<char>)
    ensures var n := LowRun(src, sep);
            (forall i :: 0 <= i < n ==> !High(src[i]) && src[i] !in sep) &&
            (n < |src| ==> High(src[n]) || src[n] in sep)
  {
    var n := LowRun(src, sep);
    if n > 0 {
      var t := src[1..];
      LowRunStops(t, sep);
      assert forall i :: 1 <= i < |src| ==> src[i] == t[i - 1];
    }
  }

  lemma LowRunIs(s: string, sep: set<char>, n: nat)
    requires n <= |s| && (forall j :: 0 <= j < n ==> !High(s[j]) && s[j] !in sep)
    requires n == |s| || High(s[n]) || s[n] in sep
    ensures LowRun(s, sep) == n
  {
    LowRunStops(s, sep);
  }

  /** A run of low runes that ends at i is one token. */
  lemma LowStretch(src: string, sep: set<char>, p: nat, i: nat)
    requires p < i <= |src| && forall j :: p <= j < i ==> !High(src[j]) && src[j] !in sep
    requires i == |src| || High(src[i]) || src[i] in sep
    ensures Tokens(src[p..], sep) == [src[p..i]] + Tokens(src[i..], sep)
  {
    var s := src[p..];
    LowRunIs(s, sep, i - p);
    assert s[..i - p] == src[p..i] && s[i - p..] == src[i..];
  }

  /** From one mark to the next, the stretch gives exactly the tokens that start in it. */
  lemma StretchTokens(src: string, sep: set<char>, last: nat, i: nat)
    requires last < i <= |src| && (i == |src| || Marked(src, sep, i))
    requires forall j :: last < j < i ==> !Marked(src, sep, j)
    ensures Tokens(src[last..], sep) == Stretch(src, sep, last, i) + Tokens(src[i..], sep)
  {
    var s := src[last..];
    assert s[0] == src[last] && s[1..] == src[last + 1..];
    forall j | last < j < i ensures !High(src[j]) && src[j] !in sep {
      assert !Marked(src, sep, j);
    }
    if src[last] in sep {
      if last + 1 < i {
        LowStretch(src, sep, last + 1, i);
      }
    } else if High(src[last]) {
      assert last + 1 == i by {
        if last + 1 < i { assert Marked(src, sep, last + 1); }
      }
      assert s[..1] == src[last..i];
    } else {
      assert i < |src| && !High(src[i]) ==> src[i] in sep by {
        if i < |src| && !High(src[i]) { assert i - 1 == last || last < i - 1 < i; }
      }
      LowStretch(src, sep, last, i);
    }
  }

  /** Between the turns of the second loop: the tokens so far, and those of the text from the last mark on. */
  ghost predicate Halfway(src: string, sep: set<char>, last: nat, tokens: seq<string>) {
    last <= |src| && tokens + Tokens(src[last..], sep) == Tokens(src, sep) &&
    (last == |src| ==> tokens == Tokens(src, sep))
  }

  ghost predicate NoMarkBetween(src: string, sep: set<char>, last: nat, i: nat) {
    forall j :: last < j < i && j < |src| ==> !Marked(src, sep, j)
  }

  lemma CutStart(src: string, sep: set<char>)
    ensures Halfway(src, sep, 0, [])
  {
    assert src[0..] == src;
  }

  /** One turn: the stretch up to a mark, or to the end, is appended. */
  lemma CutStep(src: string, sep: set<char>, last: nat, i: nat, before: seq<string>, after: seq<string>)
    requires last < i <= |src| && (i == |src| || Marked(src, sep, i))
    requires NoMarkBetween(src, sep, last, i)
    requires Halfway(src, sep, last, before)
    requires after == before + Stretch(src, sep, last, i)
    ensures Halfway(src, sep, i, after)
  {
    StretchTokens(src, sep, last, i);
    var a, b := Stretch(src, sep, last, i), Tokens(src[i..], sep);
    assert (before + a) + b == before + (a + b);
    if i == |src| {
      assert b == [];
    }
  }

  class TokenizerBasic {
    const separator: set<char>

    /** The separators are the first bytes of the given strings; an empty one makes the source panic. */
    constructor (list: seq<string>)
      requires forall i :: 0 <= i < |list| ==> |list[i]| > 0
      ensures separator == SeparatorSet(if |list| == 0 then DEFAULT_SEPARATOR else list)
    {
      separator := SeparatorSet(if |list| == 0 then DEFAULT_SEPARATOR else list);
    }

    /** The first loop: the marked positions, and one spare at the end that stays unmarked. */
    method Mark(src: string) returns (positions: array<int>)
      ensures fresh(positions) && positions.Length == |src| + 1 && positions[|src|] != 1
      ensures forall i :: 0 <= i < |src| ==> (positions[i] == 1 <==> Marked(src, separator, i))
    {
      positions := new int[|src| + 1](_ => 0);
      var isMultiCharacter := false;
      for i := 0 to |src|
        invariant positions[|src|] == 0
        invariant forall j :: i <= j < |src| ==> positions[j] == 0
        invariant forall j :: 0 <= j < i ==> (positions[j] == 1 <==> Marked(src, separator, j))
        invariant isMultiCharacter <==> i > 0 && High(src[i - 1])
      {
        var r := src[i];
        if r in separator {
          positions[i] := 1;
        }
        if High(src[i]) {
          positions[i] := 1;
          isMultiCharacter := true;
        } else if isMultiCharacter {
          positions[i] := 1;
          isMultiCharacter := false;
        }
      }
    }

    /** The branch both ends of the second loop share: the token between two marks, if there is one. */
    method Emit(src: string, lastPosition: nat, i: nat, tokens: seq<string>) returns (r: seq<string>)
      requires lastPosition < i <= |src|
      ensures r == tokens + Stretch(src, separator, lastPosition, i)
    {
      r := tokens;
      if src[lastPosition] in separator {
        if lastPosition + 1 < i {
          r := r + [src[lastPosition + 1..i]];
        }
      } else {
        r := r + [src[lastPosition..i]];
      }
    }

    method Cut(text: string) returns (tokens: seq<string>)
      ensures tokens == Tokens(Without(text, BOM), separator)
    {
      ReplaceIsWithout(text, BOM);
      tokens := CutRunes(ReplaceAll(text, [BOM], []));
    }

    method CutRunes(src: string) returns (tokens: seq<string>)
      ensures tokens == Tokens(src, separator)
    {
      var length := |src|;
      var positions := Mark(src);
      var lastPosition: nat := 0;
      tokens := [];
      CutStart(src, separator);
      for i := 1 to positions.Length
        invariant positions[length] != 1
        invariant forall j :: 0 <= j < length ==> (positions[j] == 1 <==> Marked(src, separator, j))
        invariant lastPosition <= length && (length > 0 ==> lastPosition < length && lastPosition < i)
        invariant NoMarkBetween(src, separator, lastPosition, i)
        invariant Halfway(src, separator, lastPosition, tokens)
      {
        if positions[i] == 1 {
          ghost var before := tokens;
          tokens := Emit(src, lastPosition, i, tokens);
          CutStep(src, separator, lastPosition, i, before, tokens);
          lastPosition := i;
        }
      }
      if lastPosition < length {
        ghost var before := tokens;
        tokens := Emit(src, lastPosition, length, tokens);
        CutStep(src, separator, lastPosition, length, before, tokens);
      }
    }
  }
}
