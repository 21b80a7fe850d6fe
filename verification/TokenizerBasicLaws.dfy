/** What the basic tokenizer's result is: the one maximal segmentation of the text. */
module TokenizerBasicLaws {
  import opened GoStrings
  import opened TokenizerBasic

  /** A stretch of the text: the runes at from, ..., to - 1. */
  datatype Piece = Piece(from: nat, to: nat)

  ghost predicate AllSeparators(src: string, sep: set<char>, from: nat, to: nat)
    requires to <= |src|
  {
    forall i :: from <= i < to ==> src[i] in sep
  }

  /** The piece is not empty and holds no separator, and if it holds a rune above 255 it holds nothing else. */
  ghost predicate Uniform(src: string, sep: set<char>, piece: Piece) {
    piece.from < piece.to <= |src| &&
    (forall i :: piece.from <= i < piece.to ==> src[i] !in sep) &&
    (forall i :: piece.from <= i < piece.to && src[i] as int > 255 ==> piece.to == piece.from + 1)
  }

  /** A maximal segmentation of the text from p on: between its pieces there are only separators, and
      where two pieces touch, one of the two runes there is above 255, so the others are never parted. */
  ghost predicate Segments(src: string, sep: set<char>, p: nat, pieces: seq<Piece>)
    decreases |pieces|
  {
    if pieces == [] then p <= |src| && AllSeparators(src, sep, p, |src|)
    else
      var first, rest := pieces[0], pieces[1..];
      Uniform(src, sep, first) && p <= first.from && AllSeparators(src, sep, p, first.from) &&
      Segments(src, sep, first.to, rest) &&
      (rest != [] && rest[0].from == first.to && first.to < |src| ==>
         src[first.to - 1] as int > 255 || src[first.to] as int > 255)
  }

  ghost predicate InText(src: string, pieces: seq<Piece>) {
    forall k :: 0 <= k < |pieces| ==> pieces[k].from < pieces[k].to <= |src|
  }

  function Texts(src: string, pieces: seq<Piece>): seq<string>
    requires InText(src, pieces)
  {
    if pieces == [] then [] else [src[pieces[0].from..pieces[0].to]] + Texts(src, pieces[1..])
  }

  lemma {:induction false} SegmentsInText(src: string, sep: set<char>, p: nat, pieces: seq<Piece>)
    requires Segments(src, sep, p, pieces)
    ensures InText(src, pieces)
    decreases |pieces|
  {
    if pieces != [] {
      var rest := pieces[1..];
      SegmentsInText(src, sep, pieces[0].to, rest);
      assert forall k :: 1 <= k < |pieces| ==> pieces[k] == rest[k - 1];
    }
  }

  // ---- a maximal segmentation exists, and any other gives the same tokens

  function SegmentsFrom(src: string, sep: set<char>, p: nat): (pieces: seq<Piece>)
    requires p <= |src|
    decreases |src| - p
  {
    if p == |src| then []
    else if src[p] in sep then SegmentsFrom(src, sep, p + 1)
    else if High(src[p]) then [Piece(p, p + 1)] + SegmentsFrom(src, sep, p + 1)
    else
      var n := LowRun(src[p..], sep);
      [Piece(p, p + n)] + SegmentsFrom(src, sep, p + n)
  }

  /** A separator in front of a segmentation, and a piece. */
  lemma SegmentsSkip(src: string, sep: set<char>, p: nat, pieces: seq<Piece>)
    requires p < |src| && src[p] in sep && Segments(src, sep, p + 1, pieces)
    ensures Segments(src, sep, p, pieces)
  {
  }

  lemma SegmentsCons(src: string, sep: set<char>, first: Piece, rest: seq<Piece>)
    requires Uniform(src, sep, first) && Segments(src, sep, first.to, rest)
    requires first.to < |src| ==> src[first.to - 1] as int > 255 || src[first.to] as int > 255 || src[first.to] in sep
    ensures Segments(src, sep, first.from, [first] + rest)
  {
    var pieces := [first] + rest;
    assert pieces[1..] == rest;
  }

  /** Where a low run that starts at p ends. */
  lemma RunStops(src: string, sep: set<char>, p: nat)
    requires p < |src| && src[p] !in sep && !High(src[p])
    ensures var q := p + LowRun(src[p..], sep);
            p < q <= |src| && (forall i :: p <= i < q ==> !High(src[i]) && src[i] !in sep) &&
            (q < |src| ==> High(src[q]) || src[q] in sep)
  {
    var s := src[p..];
    LowRunStops(s, sep);
    assert forall i :: p <= i < |src| ==> src[i] == s[i - p];
  }

  lemma {:induction false} SegmentsExist(src: string, sep: set<char>, p: nat)
    requires p <= |src|
    ensures Segments(src, sep, p, SegmentsFrom(src, sep, p))
    decreases |src| - p
  {
    if p < |src| {
      if src[p] in sep {
        SegmentsExist(src, sep, p + 1);
        SegmentsSkip(src, sep, p, SegmentsFrom(src, sep, p + 1));
      } else {
        if !High(src[p]) { RunStops(src, sep, p); }
        var q := if High(src[p]) then p + 1 else p + LowRun(src[p..], sep);
        SegmentsExist(src, sep, q);
        SegmentsCons(src, sep, Piece(p, q), SegmentsFrom(src, sep, q));
      }
    }
  }

  lemma {:induction false} SkipSeparators(src: string, sep: set<char>, p: nat, q: nat)
    requires p <= q <= |src| && AllSeparators(src, sep, p, q)
    ensures Tokens(src[p..], sep) == Tokens(src[q..], sep)
    decreases q - p
  {
    if p < q {
      SkipSeparators(src, sep, p + 1, q);
      var s := src[p..];
      assert s[0] == src[p] && s[1..] == src[p + 1..];
    }
  }

  /** A piece of the segmentation is the next token. */
  lemma FirstPiece(src: string, sep: set<char>, p: nat, pieces: seq<Piece>)
    requires Segments(src, sep, p, pieces) && pieces != []
    ensures Tokens(src[p..], sep) == [src[pieces[0].from..pieces[0].to]] + Tokens(src[pieces[0].to..], sep)
  {
    var from, to := pieces[0].from, pieces[0].to;
    SkipSeparators(src, sep, p, from);
    var s := src[from..];
    assert s[0] == src[from];
    if High(src[from]) {
      assert s[..1] == src[from..to] && s[1..] == src[to..];
    } else {
      assert to == |src| || High(src[to]) || src[to] in sep by {
        if to < |src| {
          var rest := pieces[1..];
          if rest != [] && rest[0].from == to {
            assert !High(src[to - 1]);
          } else {
            assert src[to] in sep;
          }
        }
      }
      LowStretch(src, sep, from, to);
    }
  }

  lemma {:induction false} TokensFromSegments(src: string, sep: set<char>, p: nat, pieces: seq<Piece>)
    requires Segments(src, sep, p, pieces)
    ensures p <= |src| && InText(src, pieces)
    ensures Texts(src, pieces) == Tokens(src[p..], sep)
    decreases |pieces|
  {
    SegmentsInText(src, sep, p, pieces);
    if pieces == [] {
      SkipSeparators(src, sep, p, |src|);
    } else {
      TokensFromSegments(src, sep, pieces[0].to, pieces[1..]);
      FirstPiece(src, sep, p, pieces);
    }
  }

  /** The tokens are those of the maximal segmentation: there is one, and every one has these texts. */
  lemma CutIsTheMaximalSegmentation(src: string, sep: set<char>)
    ensures exists pieces :: Segments(src, sep, 0, pieces)
    ensures forall pieces: seq<Piece> :: Segments(src, sep, 0, pieces) ==>
              InText(src, pieces) &&
              Texts(src, pieces) == Tokens(src, sep)
  {
    SegmentsExist(src, sep, 0);
    assert src[0..] == src;
    forall pieces: seq<Piece> | Segments(src, sep, 0, pieces)
      ensures InText(src, pieces) &&
              Texts(src, pieces) == Tokens(src, sep)
    {
      TokensFromSegments(src, sep, 0, pieces);
    }
  }

  // ---- what is lost, and where texts may be parted

  lemma {:induction false} ExceptLow(src: string, sep: set<char>)
    ensures var n := LowRun(src, sep); Except(src, sep) == src[..n] + Except(src[n..], sep)
  {
    var n := LowRun(src, sep);
    if n > 0 {
      var t := src[1..];
      var front, rest := t[..n - 1], Except(t[n - 1..], sep);
      ExceptLow(t, sep);
      assert src[..n] == [src[0]] + front && src[n..] == t[n - 1..];
      Regroup([src[0]], front, rest);
    }
  }

  /** Put together, the tokens are the text less its separators: nothing else is lost, added or moved. */
  lemma {:induction false} TokensKeepTheText(src: string, sep: set<char>)
    ensures Flatten(Tokens(src, sep)) == Except(src, sep)
    decreases |src|
  {
    if src != [] {
      var tokens := Tokens(src, sep);
      if src[0] in sep {
        TokensKeepTheText(src[1..], sep);
      } else if High(src[0]) {
        TokensKeepTheText(src[1..], sep);
        assert tokens[0] == [src[0]] && tokens[1..] == Tokens(src[1..], sep);
      } else {
        var n := LowRun(src, sep);
        ExceptLow(src, sep);
        TokensKeepTheText(src[n..], sep);
        assert tokens[0] == src[..n] && tokens[1..] == Tokens(src[n..], sep);
      }
    }
  }

  /** How many runes the first cut consumes: a separator, a high rune, or a run of low ones. */
  function Head(s: string, sep: set<char>): (n: nat)
    requires s != []
    ensures 0 < n <= |s|
  {
    var n := LowRun(s, sep);
    if n == 0 then 1 else n
  }

  function HeadTokens(s: string, sep: set<char>): seq<string>
    requires s != []
  {
    if s[0] in sep then [] else [s[..Head(s, sep)]]
  }

  lemma TokensByHead(s: string, sep: set<char>)
    requires s != []
    ensures Tokens(s, sep) == HeadTokens(s, sep) + Tokens(s[Head(s, sep)..], sep)
  {
  }

  lemma HeadConcat(a: string, b: string, sep: set<char>)
    requires a != [] && (b == [] || b[0] in sep || High(b[0]))
    ensures Head(a + b, sep) == Head(a, sep) && HeadTokens(a + b, sep) == HeadTokens(a, sep)
  {
    var text, n := a + b, LowRun(a, sep);
    LowRunStops(a, sep);
    forall j | 0 <= j < n ensures !High(text[j]) && text[j] !in sep { assert text[j] == a[j]; }
    assert n < |a| ==> text[n] == a[n];
    assert n == |a| && b != [] ==> text[n] == b[0];
    LowRunIs(text, sep, n);
    assert text[..Head(a, sep)] == a[..Head(a, sep)];
  }

  lemma TokensConcatByHead(a: string, b: string, sep: set<char>)
    requires a != [] && (b == [] || b[0] in sep || High(b[0]))
    ensures Tokens(a + b, sep) == HeadTokens(a, sep) + Tokens(a[Head(a, sep)..] + b, sep)
  {
    var text, n := a + b, Head(a, sep);
    HeadConcat(a, b, sep);
    TokensByHead(text, sep);
    assert text[n..] == a[n..] + b;
  }

  /** A text may be parted in front of a separator or a high rune. */
  lemma {:induction false} TokensPart(a: string, b: string, sep: set<char>)
    requires b == [] || b[0] in sep || High(b[0])
    ensures Tokens(a + b, sep) == Tokens(a, sep) + Tokens(b, sep)
    decreases |a|
  {
    if a == [] {
      assert a + b == b;
    } else {
      var tail := a[Head(a, sep)..];
      TokensByHead(a, sep);
      TokensConcatByHead(a, b, sep);
      TokensPart(tail, b, sep);
      Regroup(HeadTokens(a, sep), Tokens(tail, sep), Tokens(b, sep));
    }
  }

  /** Cutting two texts joined by a separator is cutting each, byte order marks and all. */
  lemma CutAtSeparator(a: string, c: char, b: string, list: seq<string>)
    requires forall i :: 0 <= i < |list| ==> |list[i]| > 0
    requires c in SeparatorSet(list)
    ensures var sep := SeparatorSet(list);
            Tokens(Without(a + [c] + b, BOM), sep) == Tokens(Without(a, BOM), sep) + Tokens(Without(b, BOM), sep)
  {
    var sep, tail := SeparatorSet(list), [c] + b;
    var i :| 0 <= i < |list| && c == FirstByte(list[i][0]);
    assert c != BOM;
    assert a + [c] + b == a + tail;
    WithoutConcat(a, tail, BOM);
    var u, v := Without(a, BOM), Without(tail, BOM);
    assert tail[0] == c && tail[1..] == b;
    assert v[0] == c && v[1..] == Without(b, BOM);
    TokensPart(u, v, sep);
  }

  /** Only the first byte of a separator string counts, so a rune above 255 never separates: unless it is a
      byte order mark, which goes, it stays a token between texts cut on their own ... */
  lemma HighRunesNeverSeparate(a: string, c: char, b: string, list: seq<string>)
    requires forall i :: 0 <= i < |list| ==> |list[i]| > 0
    requires c as int > 255
    ensures var sep := SeparatorSet(list);
            var first, last := Tokens(Without(a, '\U{FEFF}'), sep), Tokens(Without(b, '\U{FEFF}'), sep);
            c !in sep &&
            (c != '\U{FEFF}' ==> Tokens(Without(a + [c] + b, '\U{FEFF}'), sep) == first + [[c]] + last) &&
            (c == '\U{FEFF}' ==> Without(a + [c] + b, '\U{FEFF}') == Without(a + b, '\U{FEFF}'))
  {
    var sep, tail := SeparatorSet(list), [c] + b;
    assert a + [c] + b == a + tail && tail[1..] == b;
    WithoutConcat(a, tail, BOM);
    WithoutConcat(a, b, BOM);
    if c != BOM {
      HighRuneStays(Without(a, BOM), c, Without(b, BOM), sep);
      assert Without(tail, BOM) == [c] + Without(b, BOM);
    }
  }

  lemma HighRuneStays(a: string, c: char, b: string, sep: set<char>)
    requires High(c) && c !in sep
    ensures Tokens(a + ([c] + b), sep) == Tokens(a, sep) + [[c]] + Tokens(b, sep)
  {
    var tail := [c] + b;
    TokensPart(a, tail, sep);
    assert tail[1..] == b && tail[..1] == [c];
    assert Tokens(tail, sep) == [[c]] + Tokens(b, sep);
    Regroup(Tokens(a, sep), [[c]], Tokens(b, sep));
  }

  /** The byte that a separator string stands for: the first one of its first rune's UTF-8 form, whose lower
      bits are the upper ones of the code point. */
  lemma FirstByteLeads(c: char)
    ensures var n, b := c as int, FirstByte(c) as int;
            (n < 0x80 ==> b == n) &&
            (0x80 <= n < 0x800 ==> 0xC2 <= b < 0xE0 && (b - 0xC0) * 0x40 <= n < (b - 0xBF) * 0x40) &&
            (0x800 <= n < 0x10000 ==> 0xE0 <= b < 0xF0 && (b - 0xE0) * 0x1000 <= n < (b - 0xDF) * 0x1000) &&
            (0x10000 <= n ==> 0xF0 <= b < 0xF5 && (b - 0xF0) * 0x40000 <= n < (b - 0xEF) * 0x40000)
  {
  }

  predicate AsciiOrWide(c: char) {
    c as int < 0x80 || 0x2000 <= c as int < 0x4000 || 0xF000 <= c as int < 0x10000
  }

  lemma SeparatorsOf(list: seq<string>, c: char)
    requires forall i :: 0 <= i < |list| ==> |list[i]| > 0 && AsciiOrWide(list[i][0])
    requires "\U{FF1A}" in list && "\U{3002}" in list && "\U{201D}" in list
    requires c as int >= 0x80
    ensures c in SeparatorSet(list) <==> c == '\U{00EF}' || c == '\U{00E3}' || c == '\U{00E2}'
  {
    var separators := SeparatorSet(list);
    var i :| 0 <= i < |list| && list[i] == "\U{FF1A}";
    var j :| 0 <= j < |list| && list[j] == "\U{3002}";
    var k :| 0 <= k < |list| && list[k] == "\U{201D}";
    assert FirstByte(list[i][0]) in separators && FirstByte(list[j][0]) in separators;
    assert FirstByte(list[k][0]) in separators;
  }

  lemma WideSeparators(c: char)
    requires c as int >= 0x80
    ensures c in SeparatorSet(DEFAULT_SEPARATOR) <==> c == '\U{00EF}' || c == '\U{00E3}' || c == '\U{00E2}'
  {
    var list := DEFAULT_SEPARATOR;
    assert list[19] == "\U{FF1A}" && list[22] == "\U{3002}" && list[29] == "\U{201D}";
    forall i | 0 <= i < |list| ensures AsciiOrWide(list[i][0]) {
      if i < 19 {
      } else if i < 24 {
      } else {
      }
    }
    SeparatorsOf(list, c);
  }

  /** Tab, line feed, carriage return, space and  ! # ' ( ) , - . / : ; ? @ [ \ ] . */
  ghost predicate AsciiSeparator(n: int) {
    n == 9 || n == 10 || n == 13 || n == 32 || n == 33 || n == 35 || 39 <= n <= 41 || 44 <= n <= 47 ||
    n == 58 || n == 59 || n == 63 || n == 64 || 91 <= n <= 93
  }

  /** Every default separator of one byte is one of these. */
  lemma NarrowOnly(i: nat)
    requires i < |DEFAULT_SEPARATOR| && (FirstByte(DEFAULT_SEPARATOR[i][0]) as int) < 0x80
    ensures AsciiSeparator(FirstByte(DEFAULT_SEPARATOR[i][0]) as int)
  {
    if i < 10 {
    } else if i < 19 {
    } else if i < 24 {
    } else {
    }
  }

  /** Where each stands in the list. */
  function PlaceOf(n: int): nat {
    if n <= 13 then if n == 9 then 0 else if n == 10 then 1 else 2
    else if n <= 35 then if n == 32 then 3 else if n == 33 then 14 else 5
    else if n <= 41 then if n == 39 then 12 else if n == 40 then 16 else 17
    else if n <= 47 then if n == 44 then 6 else if n == 45 then 18 else if n == 46 then 7 else 10
    else if n <= 63 then if n == 58 then 8 else if n == 59 then 15 else 9
    else if n == 64 then 4 else if n == 91 then 24 else if n == 92 then 11 else 25
  }

  lemma NarrowAll(n: int)
    requires AsciiSeparator(n)
    ensures PlaceOf(n) < |DEFAULT_SEPARATOR| && DEFAULT_SEPARATOR[PlaceOf(n)][0] as int == n
  {
    if n <= 35 {
    } else if n <= 47 {
    } else {
    }
  }

  lemma NarrowSeparators(c: char)
    requires (c as int) < 0x80
    ensures c in SeparatorSet(DEFAULT_SEPARATOR) <==> AsciiSeparator(c as int)
  {
    if c in SeparatorSet(DEFAULT_SEPARATOR) {
      var i: nat :| i < |DEFAULT_SEPARATOR| && FirstByte(DEFAULT_SEPARATOR[i][0]) == c;
      NarrowOnly(i);
    }
    if AsciiSeparator(c as int) {
      NarrowAll(c as int);
      assert FirstByte(DEFAULT_SEPARATOR[PlaceOf(c as int)][0]) in SeparatorSet(DEFAULT_SEPARATOR);
    }
  }

  /** ... and the full-width marks among the default separators make separators of three Latin-1 letters,
      while those of ASCII are separators themselves. */
  lemma DefaultSeparators(c: char)
    ensures c in SeparatorSet(DEFAULT_SEPARATOR) <==>
            AsciiSeparator(c as int) || c == '\U{00EF}' || c == '\U{00E3}' || c == '\U{00E2}'
  {
    if (c as int) < 0x80 {
      NarrowSeparators(c);
    } else {
      WideSeparators(c);
    }
  }
}
