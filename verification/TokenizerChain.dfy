/** The chain tokenizer. Its two halves write into a buffer with '|' after or between the tokens and split
    that buffer again: one takes the runes above 255, the other the runs of letters below 255. */
module TokenizerChain {
  import opened GoStrings
  import opened ChainTokens

  class TokenizerChain {
    const stopWords: set<string>

    constructor (stopWords: set<string>)
      ensures this.stopWords == stopWords
    {
      this.stopWords := stopWords;
    }

    method WideRunes(src: string) returns (d: string)
      ensures d == Wide(src)
    {
      d := [];
      for i := 0 to |src|
        invariant d + Wide(src[i..]) == Wide(src)
      {
        WideStep(src, i);
        if src[i] as int > 255 {
          ghost var before, rest := d, Wide(src[i + 1..]);
          d := d + [src[i]];
          Regroup(before, [src[i]], rest);
        }
      }
    }

    method WriteSingles(d: string, buffer: string) returns (r: string)
      ensures r == buffer + WrittenBlock(true, Single, d)
    {
      r := buffer;
      var i := 0;
      while i < |d|
        invariant 0 <= i <= |d|
        invariant r == buffer + Written(Single, d, i)
      {
        WrittenStep(Single, d, i);
        r := r + [d[i]];
        r := r + [BAR];
        i := i + 1;
      }
    }

    method WritePairs(d: string, buffer: string) returns (r: string)
      ensures r == buffer + WrittenBlock(true, Pair, d)
    {
      r := buffer;
      var i := 0;
      while i < |d| - 1
        invariant 0 <= i && (i == 0 || i <= |d| - 1)
        invariant r == buffer + Written(Pair, d, i)
      {
        WrittenStep(Pair, d, i);
        r := r + [d[i]];
        r := r + [d[i + 1]];
        r := r + [BAR];
        i := i + 1;
      }
    }

    method WriteTriples(d: string, buffer: string) returns (r: string)
      ensures r == buffer + WrittenBlock(true, Triple, d)
    {
      r := buffer;
      var i := 0;
      while i < |d| - 2
        invariant 0 <= i && (i == 0 || i <= |d| - 2)
        invariant r == buffer + Written(Triple, d, i)
      {
        WrittenStep(Triple, d, i);
        r := r + [d[i]];
        r := r + [d[i + 1]];
        r := r + [d[i + 2]];
        r := r + [BAR];
        i := i + 1;
      }
    }

    method WriteSkips(d: string, buffer: string) returns (r: string)
      ensures r == buffer + WrittenBlock(true, Skip, d)
    {
      r := buffer;
      var i := 0;
      while i < |d| - 2
        invariant 0 <= i && (i == 0 || i <= |d| - 2)
        invariant r == buffer + Written(Skip, d, i)
      {
        WrittenStep(Skip, d, i);
        r := r + [d[i]];
        r := r + ['*'];
        r := r + [d[i + 2]];
        r := r + [BAR];
        i := i + 1;
      }
    }

    method WriteBlocks(d: string, unitary: bool, binary: bool, ternary: bool, chain: bool) returns (buffer: string)
      ensures buffer == Terminated(Multibyte(d, unitary, binary, ternary, chain), BAR)
    {
      ghost var w1, w2 := WrittenBlock(unitary, Single, d), WrittenBlock(binary, Pair, d);
      ghost var w3, w4 := WrittenBlock(ternary, Triple, d), WrittenBlock(ternary && chain, Skip, d);
      MultibyteWritten(d, unitary, binary, ternary, chain);
      buffer := "";
      if unitary {
        buffer := WriteSingles(d, buffer);
      }
      assert buffer == w1;
      if binary {
        buffer := WritePairs(d, buffer);
      }
      assert buffer == w1 + w2;
      if ternary {
        buffer := WriteTriples(d, buffer);
        if chain {
          buffer := WriteSkips(d, buffer);
        }
      }
      assert buffer == w1 + w2 + w3 + w4;
    }

    method GetMultibyte(src: string, unitary: bool, binary: bool, ternary: bool, chain: bool) returns (r: seq<string>)
      ensures var grams := Multibyte(Wide(src), unitary, binary, ternary, chain);
              r == if grams == [] then [""] else grams
    {
      var d := WideRunes(src);
      var buffer := WriteBlocks(d, unitary, binary, ternary, chain);
      var dist := TrimRight(buffer, BAR);
      r := Split(dist, [BAR]);
      MultibyteBarless(src, unitary, binary, ternary, chain);
      SplitBars(Multibyte(d, unitary, binary, ternary, chain));
    }

    /** The reading loop: letters are folded, everything else becomes a bar. */
    method MaskRunes(b: string) returns (dist: string)
      ensures dist == Masked(b)
    {
      dist := "";
      for i := 0 to |b|
        invariant dist == Masked(b)[..i]
      {
        var c := b[i];
        if c == '\r' || c == '\n' || c == '\U{FEFF}' {
          dist := dist + [BAR];
        } else if c as int >= 255 || !Letter(c) {
          dist := dist + [BAR];
        } else if c as int > 64 && (c as int) < 91 {
          dist := dist + [c + 32 as char];
        } else {
          dist := dist + [c];
        }
      }
    }

    method TakeWords(tl: seq<string>, tmpList: seq<string>) returns (r: seq<string>)
      ensures r == tmpList + Spread(Words(stopWords), tl)
    {
      r := tmpList;
      for i := 0 to |tl|
        invariant r + Spread(Words(stopWords), tl[i..]) == tmpList + Spread(Words(stopWords), tl)
      {
        SpreadStep(Words(stopWords), tl, i);
        ghost var before, rest := r, Spread(Words(stopWords), tl[i + 1..]);
        var token := tl[i];
        var lowerToken := Lower(token);
        if ByteLen(token) < 2 || ByteLen(token) > 16 {
        } else if lowerToken in stopWords {
        } else {
          r := r + [lowerToken];
          Regroup(before, [lowerToken], rest);
        }
      }
    }

    method TakePairs(tl: seq<string>, tmpList: seq<string>) returns (r: seq<string>)
      ensures r == tmpList + Spread(Pairs, tl)
    {
      r := tmpList;
      var i := 0;
      while i < |tl| - 1
        invariant 0 <= i && (i == 0 || i <= |tl| - 1)
        invariant r + Spread(Pairs, tl[i..]) == tmpList + Spread(Pairs, tl)
      {
        SpreadStep(Pairs, tl, i);
        ghost var before, rest := r, Spread(Pairs, tl[i + 1..]);
        if ByteLen(tl[i]) > 1 && ByteLen(tl[i + 1]) > 1 {
          var t := tl[i] + " " + tl[i + 1];
          r := r + [t];
          Regroup(before, [t], rest);
        }
        i := i + 1;
      }
      SpreadShort(Pairs, tl[i..]);
    }

    method TakeTriples(tl: seq<string>, tmpList: seq<string>) returns (r: seq<string>)
      ensures r == tmpList + Spread(Triples, tl)
    {
      r := tmpList;
      var i := 0;
      while i < |tl| - 2
        invariant 0 <= i && (i == 0 || i <= |tl| - 2)
        invariant r + Spread(Triples, tl[i..]) == tmpList + Spread(Triples, tl)
      {
        SpreadStep(Triples, tl, i);
        ghost var before, rest := r, Spread(Triples, tl[i + 1..]);
        if ByteLen(tl[i]) > 1 && ByteLen(tl[i + 1]) > 1 && ByteLen(tl[i + 2]) > 1 {
          var t := tl[i] + " " + tl[i + 1] + " " + tl[i + 2];
          r := r + [t];
          Regroup(before, [t], rest);
        }
        i := i + 1;
      }
      SpreadShort(Triples, tl[i..]);
    }

    method TakeGaps(tl: seq<string>, tmpList: seq<string>) returns (r: seq<string>)
      ensures r == tmpList + Spread(Gaps, tl)
    {
      r := tmpList;
      var i := 0;
      while i < |tl| - 2
        invariant 0 <= i && (i == 0 || i <= |tl| - 2)
        invariant r + Spread(Gaps, tl[i..]) == tmpList + Spread(Gaps, tl)
      {
        SpreadStep(Gaps, tl, i);
        ghost var before, rest := r, Spread(Gaps, tl[i + 1..]);
        if ByteLen(tl[i]) > 1 && ByteLen(tl[i + 1]) > 1 {
          var t := tl[i] + " * " + tl[i + 2];
          r := r + [t];
          Regroup(before, [t], rest);
        }
        i := i + 1;
      }
      SpreadShort(Gaps, tl[i..]);
    }

    method TakeBlocks(tl: seq<string>, unitary: bool, binary: bool, ternary: bool, fuzzy: bool)
      returns (tmpList: seq<string>)
      ensures tmpList == Ascii(tl, stopWords, unitary, binary, ternary, fuzzy)
    {
      ghost var s1, s2 := SpreadIf(unitary, Words(stopWords), tl), SpreadIf(binary, Pairs, tl);
      ghost var s3, s4 := SpreadIf(ternary, Triples, tl), SpreadIf(ternary && fuzzy, Gaps, tl);
      tmpList := [];
      if unitary {
        tmpList := TakeWords(tl, tmpList);
      }
      assert tmpList == s1;
      if binary {
        tmpList := TakePairs(tl, tmpList);
      }
      assert tmpList == s1 + s2;
      if ternary {
        tmpList := TakeTriples(tl, tmpList);
        if fuzzy {
          tmpList := TakeGaps(tl, tmpList);
        }
      }
      assert tmpList == s1 + s2 + s3 + s4;
    }

    method TokenizeAscii(b: string, unitary: bool, binary: bool, ternary: bool, fuzzy: bool)
      returns (tmpList: seq<string>)
      ensures tmpList == Ascii(Pieces(b), stopWords, unitary, binary, ternary, fuzzy)
    {
      var tokenString := MaskRunes(b);
      tokenString := TrimRight(tokenString, BAR);
      var tl := Split(tokenString, [BAR]);
      tmpList := TakeBlocks(tl, unitary, binary, ternary, fuzzy);
    }

    /** The length filter over the first half. */
    method KeepLong(tokens: seq<string>) returns (r: seq<string>)
      ensures (forall s :: s in tokens ==> Long(s)) ==> r == tokens
    {
      r := [];
      for i := 0 to |tokens|
        invariant (forall s :: s in tokens ==> Long(s)) ==> r == tokens[..i]
      {
        if ByteLen(tokens[i]) > 1 {
          r := r + [tokens[i]];
        } else {
          assert tokens[i] in tokens;
        }
      }
    }

    /** The loop over the second half: empty tokens and stop words are left out. */
    method AppendUnstopped(tokenList: seq<string>, tokens: seq<string>) returns (r: seq<string>)
      ensures r == tokenList + Except(tokens, stopWords + {""})
    {
      r := tokenList;
      var stop := stopWords + {""};
      for i := 0 to |tokens|
        invariant r + Except(tokens[i..], stop) == tokenList + Except(tokens, stop)
      {
        ExceptStep(tokens, stop, i);
        ghost var before, rest := r, Except(tokens[i + 1..], stop);
        if ByteLen(tokens[i]) >= 1 {
          if tokens[i] !in stopWords {
            r := r + [tokens[i]];
            Regroup(before, [tokens[i]], rest);
          }
        }
      }
    }

    /** Both halves, each less its filter: the length filter removes nothing, and the second half loses its
        stop words. */
    method Cut(text: string, unitary: bool, binary: bool, ternary: bool, fuzzy: bool) returns (tokenList: seq<string>)
      ensures tokenList == Spelled(text, stopWords, unitary, binary, ternary, fuzzy) +
                           Except(Multibyte(Wide(text), unitary, binary, ternary, fuzzy), stopWords)
    {
      var asciiTokens := TokenizeAscii(text, unitary, binary, ternary, fuzzy);
      var multiTokens := GetMultibyte(text, unitary, binary, ternary, fuzzy);
      AsciiIsLong(Pieces(text), stopWords, unitary, binary, ternary, fuzzy);
      AsciiIsSpelled(text, stopWords, unitary, binary, ternary, fuzzy);
      tokenList := KeepLong(asciiTokens);
      tokenList := AppendUnstopped(tokenList, multiTokens);
      MultibyteBarless(text, unitary, binary, ternary, fuzzy);
      ExceptNonEmpty(Multibyte(Wide(text), unitary, binary, ternary, fuzzy), stopWords);
    }
  }
}
