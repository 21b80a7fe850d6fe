/** The payloads of the milter protocol: NUL-terminated string lists, line-ending conversion, and the
    packets with which a filter changes a message. */
module MilterCodec {
  import opened GoStrings

  newtype Byte = x: int | 0 <= x < 256

  type Bytes = seq<Byte>

  const NUL: Byte := 0
  const LF: Byte := 10
  const CR: Byte := 13

  // ---- string lists

  /** strings.Trim with NUL as the cut set. */
  function TrimNul(data: Bytes): Bytes {
    TrimRight(TrimLeft(data, NUL), NUL)
  }

  function DecodeCStrings(data: Bytes): seq<Bytes> {
    if |data| == 0 then [] else Split(TrimNul(data), [NUL])
  }

  function ReadCString(data: Bytes): Bytes {
    var pos := Index(data, [NUL]);
    if pos == -1 then data else data[..pos]
  }

  /** Each string followed by a NUL, as the protocol lays lists out. */
  function EncodeCStrings(list: seq<Bytes>): Bytes {
    Terminated(list, NUL)
  }

  ghost predicate NulFree(list: seq<Bytes>) {
    FreeOf(list, NUL)
  }

  function DropLeadingEmpty(list: seq<Bytes>): (r: seq<Bytes>)
    ensures |r| <= |list| && r == list[|list| - |r|..] && (r == [] || r[0] != [])
    ensures forall i :: 0 <= i < |list| - |r| ==> list[i] == []
  {
    if |list| > 0 && list[0] == [] then DropLeadingEmpty(list[1..]) else list
  }

  lemma {:induction false} TrimLeftEncode(list: seq<Bytes>)
    requires NulFree(list)
    ensures TrimLeft(EncodeCStrings(list), NUL) == EncodeCStrings(DropLeadingEmpty(list))
  {
    if list != [] {
      var data := EncodeCStrings(list);
      if list[0] == [] {
        assert data == [NUL] + EncodeCStrings(list[1..]);
        assert data[1..] == EncodeCStrings(list[1..]);
        TrimLeftEncode(list[1..]);
      } else {
        assert data[0] == list[0][0];
        assert list[0][0] in list[0];
      }
    }
  }

  /** What decoding makes of an encoded list of NUL-free strings: empty strings at both ends are lost,
      and a list of empty strings only becomes the list of one empty string. */
  lemma DecodeEncoded(list: seq<Bytes>)
    requires NulFree(list)
    ensures var core := DropTrailingEmpty(DropLeadingEmpty(list));
            DecodeCStrings(EncodeCStrings(list)) ==
            if list == [] then [] else if core == [] then [[]] else core
  {
    if list != [] {
      var tail := DropLeadingEmpty(list);
      TrimLeftEncode(list);
      NulFreePart(list, |list| - |tail|, |list|);
      SplitTerminated(tail, NUL);
      assert EncodeCStrings(list) != [] by { TerminatedIsJoin(list, NUL); }
    }
  }

  lemma NulFreePart(list: seq<Bytes>, i: nat, j: nat)
    requires NulFree(list) && i <= j <= |list|
    ensures NulFree(list[i..j])
  {
  }

  lemma NothingDropped(list: seq<Bytes>)
    ensures DropTrailingEmpty(DropLeadingEmpty(list)) == list <==>
            list == [] || (list[0] != [] && list[|list| - 1] != [])
  {
    var front := DropLeadingEmpty(list);
    var core := DropTrailingEmpty(front);
    if core == list {
      assert |front| == |list| && front == list;
    }
  }

  /** The lists that survive encoding and decoding. */
  lemma CStringsRoundTrip(list: seq<Bytes>)
    ensures DecodeCStrings(EncodeCStrings(list)) == list <==>
            NulFree(list) && (|list| <= 1 || (list[0] != [] && list[|list| - 1] != []))
  {
    if !NulFree(list) {
      SplitPartsFree(TrimNul(EncodeCStrings(list)), NUL);
    } else if list == [] {
    } else if list == [[]] {
      DecodeEncoded(list);
      assert DropLeadingEmpty(list) == [];
    } else {
      DecodeEncoded(list);
      NothingDropped(list);
    }
  }

  /** Reading a single string stops at its terminator exactly when the string holds none. */
  lemma ReadCStringExact(s: Bytes, rest: Bytes)
    ensures ReadCString(s + [NUL] + rest) == s <==> NUL !in s
  {
    IndexInPrefix(s, [NUL], rest);
    IndexOne(s, NUL);
    var data := s + [NUL] + rest;
    assert data[|s|] == NUL;
    ContainsOne(data, NUL);
    assert data[..|s|] == s;
    assert |ReadCString(data)| == Index(data, [NUL]);
  }

  // ---- line endings

  function CrlfToLF(b: Bytes): Bytes {
    ReplaceAll(b, [CR, LF], [LF])
  }

  predicate CrlfAt(b: Bytes, i: int) {
    0 <= i < |b| - 1 && b[i] == CR && b[i + 1] == LF
  }

  /** The bytes of b from position i on, without each CR that an LF follows. */
  function WithoutCrs(b: Bytes, i: nat): Bytes
    requires i <= |b|
    decreases |b| - i
  {
    if i == |b| then [] else if CrlfAt(b, i) then WithoutCrs(b, i + 1) else [b[i]] + WithoutCrs(b, i + 1)
  }

  lemma OccursCrlf(b: Bytes, i: int)
    ensures OccursAt(b, [CR, LF], i) <==> CrlfAt(b, i)
  {
    if 0 <= i < |b| - 1 {
      assert b[i..i + 2] == [b[i], b[i + 1]];
    }
  }

  lemma {:induction false} ReplaceFrom(b: Bytes, i: nat)
    requires i <= |b|
    ensures CrlfToLF(b[i..]) == WithoutCrs(b, i)
    decreases |b| - i
  {
    if i < |b| {
      var s := b[i..];
      OccursCrlf(s, 0);
      if CrlfAt(b, i) {
        assert s[2..] == b[i + 2..];
        ReplaceFrom(b, i + 2);
        assert WithoutCrs(b, i + 1) == [LF] + WithoutCrs(b, i + 2);
        assert [] + WithoutCrs(b, i + 1) == WithoutCrs(b, i + 1);
      } else {
        assert s[1..] == b[i + 1..];
        ReplaceFrom(b, i + 1);
      }
    }
  }

  /** The conversion deletes exactly the CR bytes that an LF follows and keeps all others in order. */
  lemma CrlfDeletesExactly(b: Bytes)
    ensures CrlfToLF(b) == WithoutCrs(b, 0)
  {
    ReplaceFrom(b, 0);
    assert b[0..] == b;
  }

  function PlacesKept(b: Bytes, i: nat): seq<nat>
    requires i <= |b|
    decreases |b| - i
  {
    if i == |b| then [] else if CrlfAt(b, i) then PlacesKept(b, i + 1) else [i] + PlacesKept(b, i + 1)
  }

  lemma {:induction false} PlacesKeptAt(b: Bytes, i: nat)
    requires i <= |b|
    ensures Ascending(PlacesKept(b, i))
    ensures forall p: nat :: p in PlacesKept(b, i) <==> i <= p < |b| && !CrlfAt(b, p)
    decreases |b| - i
  {
    if i < |b| {
      PlacesKeptAt(b, i + 1);
      if !CrlfAt(b, i) { AscendingCons(i, PlacesKept(b, i + 1)); }
    }
  }

  lemma {:induction false} WithoutCrsAt(b: Bytes, i: nat)
    requires i <= |b|
    ensures Picks(b, PlacesKept(b, i), WithoutCrs(b, i))
    decreases |b| - i
  {
    if i < |b| {
      WithoutCrsAt(b, i + 1);
      var ps, r := PlacesKept(b, i + 1), WithoutCrs(b, i + 1);
      if !CrlfAt(b, i) { PicksCons(b, i, ps, r); }
    }
  }

  /** By byte values: what is left is every byte but the 13 in front of a 10, in order. */
  lemma CrlfByBytes(b: Bytes) returns (ps: seq<nat>)
    ensures Ascending(ps)
    ensures forall p: nat :: p in ps <==> p < |b| && !(b[p] == 13 && p + 1 < |b| && b[p + 1] == 10)
    ensures Picks(b, ps, CrlfToLF(b))
  {
    ps := PlacesKept(b, 0);
    PlacesKeptAt(b, 0);
    WithoutCrsAt(b, 0);
    CrlfDeletesExactly(b);
  }

  ghost predicate HasCrlf(b: Bytes) {
    exists i :: CrlfAt(b, i)
  }

  ghost predicate HasCrCrlf(b: Bytes) {
    exists i :: 0 <= i && CrlfAt(b, i + 1) && b[i] == CR
  }

  /** The result's bytes come from b with their neighbours: where two bytes of the result follow each
      other, so do bytes of b, apart from one deleted CR before an LF. */
  lemma {:induction false} HasCrlfAfter(b: Bytes, i: nat)
    requires i <= |b|
    ensures HasCrlf(WithoutCrs(b, i)) <==> exists j :: i <= j && CrlfAt(b, j + 1) && b[j] == CR
    ensures WithoutCrs(b, i) == [] <==> i == |b|
    ensures i < |b| ==> WithoutCrs(b, i)[0] == if CrlfAt(b, i) then LF else b[i]
    decreases |b| - i
  {
    if i < |b| {
      HasCrlfAfter(b, i + 1);
      var rest, r := WithoutCrs(b, i + 1), WithoutCrs(b, i);
      if CrlfAt(b, i) {
        assert r == rest;
        assert b[i + 1] == LF;
        if j :| i <= j && CrlfAt(b, j + 1) && b[j] == CR {
          assert j != i;
        }
      } else {
        assert r == [b[i]] + rest;
        assert CrlfAt(r, 0) <==> b[i] == CR && rest != [] && rest[0] == LF;
        assert CrlfAt(r, 0) <==> CrlfAt(b, i + 1) && b[i] == CR;
        forall k ensures k != 0 ==> (CrlfAt(r, k) <==> CrlfAt(rest, k - 1)) {
        }
        if HasCrlf(rest) {
          var k :| CrlfAt(rest, k);
          assert CrlfAt(r, k + 1);
        }
        if HasCrlf(r) {
          var k :| CrlfAt(r, k);
          assert k != 0 ==> CrlfAt(rest, k - 1);
        }
      }
    }
  }

  /** The result is free of CRLF exactly when the input has no CR CR LF. */
  lemma CrlfFreeExactly(b: Bytes)
    ensures HasCrlf(CrlfToLF(b)) <==> HasCrCrlf(b)
  {
    CrlfDeletesExactly(b);
    HasCrlfAfter(b, 0);
  }

  lemma {:induction false} UnchangedExactly(b: Bytes, i: nat)
    requires i <= |b|
    ensures |WithoutCrs(b, i)| <= |b| - i
    ensures |WithoutCrs(b, i)| == |b| - i <==> forall j :: i <= j ==> !CrlfAt(b, j)
    ensures (forall j :: i <= j ==> !CrlfAt(b, j)) ==> WithoutCrs(b, i) == b[i..]
    decreases |b| - i
  {
    if i < |b| {
      UnchangedExactly(b, i + 1);
      if !CrlfAt(b, i) {
        assert b[i..] == [b[i]] + b[i + 1..];
      }
    }
  }

  /** Converting twice is converting once exactly when the input has no CR CR LF. */
  lemma CrlfIdempotentExactly(b: Bytes)
    ensures CrlfToLF(CrlfToLF(b)) == CrlfToLF(b) <==> !HasCrCrlf(b)
  {
    var c := CrlfToLF(b);
    CrlfFreeExactly(b);
    CrlfDeletesExactly(c);
    UnchangedExactly(c, 0);
    assert c[0..] == c;
    assert !HasCrlf(c) <==> forall j :: 0 <= j ==> !CrlfAt(c, j);
  }

  /** A CR LF pair lies across the boundary between the two parts. */
  predicate SplitPair(a: Bytes, b: Bytes) {
    a != [] && b != [] && a[|a| - 1] == CR && b[0] == LF
  }

  lemma CrlfInFirst(s: Bytes, a: Bytes, b: Bytes, i: nat)
    requires s == a + b && i < |a|
    ensures s[i] == a[i]
    ensures CrlfAt(s, i) <==> CrlfAt(a, i) || (SplitPair(a, b) && i == |a| - 1)
  {
  }

  lemma CrlfInSecond(s: Bytes, a: Bytes, b: Bytes, i: nat)
    requires s == a + b && i < |b|
    ensures s[|a| + i] == b[i] && (CrlfAt(s, |a| + i) <==> CrlfAt(b, i))
  {
  }

  lemma {:induction false} WithoutCrsTail(s: Bytes, a: Bytes, b: Bytes, i: nat)
    requires s == a + b && i <= |b|
    ensures WithoutCrs(s, |a| + i) == WithoutCrs(b, i)
    decreases |b| - i
  {
    if i < |b| {
      CrlfInSecond(s, a, b, i);
      WithoutCrsTail(s, a, b, i + 1);
      var k := |a| + i;
      assert k + 1 == |a| + (i + 1);
    }
  }

  lemma {:induction false} WithoutCrsConcat(s: Bytes, a: Bytes, b: Bytes, i: nat)
    requires s == a + b && i <= |a| && (i < |a| ==> !SplitPair(a, b))
    ensures WithoutCrs(s, i) == WithoutCrs(a, i) + WithoutCrs(b, 0)
    decreases |a| - i
  {
    if i == |a| {
      WithoutCrsTail(s, a, b, 0);
    } else {
      CrlfInFirst(s, a, b, i);
      WithoutCrsConcat(s, a, b, i + 1);
    }
  }

  lemma {:induction false} WithoutCrsSplit(s: Bytes, a: Bytes, b: Bytes, i: nat)
    requires s == a + b && i < |a| && SplitPair(a, b)
    ensures |WithoutCrs(s, i)| == |WithoutCrs(a, i)| + |WithoutCrs(b, 0)| - 1
    decreases |a| - i
  {
    CrlfInFirst(s, a, b, i);
    if i == |a| - 1 {
      WithoutCrsConcat(s, a, b, i + 1);
    } else {
      WithoutCrsSplit(s, a, b, i + 1);
    }
  }

  /** A body converted chunk by chunk comes out as if converted whole, except where a chunk ends in CR
      and the next one starts with LF. */
  lemma CrlfDistributesExactly(a: Bytes, b: Bytes)
    ensures CrlfToLF(a + b) == CrlfToLF(a) + CrlfToLF(b) <==>
            !SplitPair(a, b)
  {
    CrlfDeletesExactly(a);
    CrlfDeletesExactly(b);
    CrlfDeletesExactly(a + b);
    if SplitPair(a, b) {
      WithoutCrsSplit(a + b, a, b, 0);
    } else {
      WithoutCrsConcat(a + b, a, b, 0);
    }
  }

  lemma {:induction false} WithoutCrsBytes(b: Bytes, i: nat)
    requires i <= |b|
    ensures NUL in WithoutCrs(b, i) <==> NUL in b[i..]
    ensures WithoutCrs(b, i) == [] <==> i == |b|
    decreases |b| - i
  {
    if i < |b| {
      WithoutCrsBytes(b, i + 1);
      assert b[i..] == [b[i]] + b[i + 1..];
      if CrlfAt(b, i) {
        assert b[i + 1..] != [];
      }
    }
  }

  // ---- packets

  /** binary.BigEndian of uint32(v): the conversion keeps the low 32 bits. */
  function BigEndian(v: int): (r: Bytes)
    ensures |r| == 4
  {
    var u := v % 0x1_0000_0000;
    [(u / 0x100_0000) as Byte, (u / 0x1_0000 % 0x100) as Byte, (u / 0x100 % 0x100) as Byte, (u % 0x100) as Byte]
  }

  function ReadIndex(b: Bytes): int
    requires |b| == 4
  {
    ((b[0] as int * 0x100 + b[1] as int) * 0x100 + b[2] as int) * 0x100 + b[3] as int
  }

  function HeaderPayload(name: Bytes, value: Bytes): Bytes {
    name + [NUL] + CrlfToLF(value) + [NUL]
  }

  function IndexedHeaderPayload(index: int, name: Bytes, value: Bytes): Bytes {
    BigEndian(index) + HeaderPayload(name, value)
  }

  lemma BigEndianReadsBack(v: int)
    ensures ReadIndex(BigEndian(v)) == v % 0x1_0000_0000
    ensures ReadIndex(BigEndian(v)) == v <==> 0 <= v < 0x1_0000_0000
  {
    var u := v % 0x1_0000_0000;
    assert u / 0x1_0000 / 0x100 == u / 0x100_0000;
    assert u / 0x100 / 0x100 == u / 0x1_0000;
  }

  /** A header payload decodes to the name and the converted value exactly when both are non-empty and
      free of NUL bytes. */
  lemma HeaderDecodes(name: Bytes, value: Bytes)
    ensures DecodeCStrings(HeaderPayload(name, value)) == [name, CrlfToLF(value)] <==>
            name != [] && value != [] && NUL !in name && NUL !in value
  {
    var lf := CrlfToLF(value);
    var list := [name, lf];
    assert EncodeCStrings(list[1..][1..]) == [];
    assert EncodeCStrings(list[1..]) == lf + [NUL] + [];
    assert EncodeCStrings(list) == name + [NUL] + (lf + [NUL] + []) == HeaderPayload(name, value);
    CStringsRoundTrip(list);
    CrlfDeletesExactly(value);
    WithoutCrsBytes(value, 0);
    assert value[0..] == value;
    assert NulFree(list) <==> NUL !in name && NUL !in lf by {
      assert list[0] == name && list[1] == lf;
    }
  }

  /** The payload of a header change or insertion gives back index, name and converted value exactly
      for a 32-bit index and non-empty NUL-free texts. */
  lemma IndexedHeaderDecodes(index: int, name: Bytes, value: Bytes)
    ensures var payload := IndexedHeaderPayload(index, name, value);
            |payload| >= 4 &&
            (ReadIndex(payload[..4]) == index && DecodeCStrings(payload[4..]) == [name, CrlfToLF(value)] <==>
             0 <= index < 0x1_0000_0000 && name != [] && value != [] && NUL !in name && NUL !in value)
  {
    var payload := IndexedHeaderPayload(index, name, value);
    assert payload[..4] == BigEndian(index);
    assert payload[4..] == HeaderPayload(name, value);
    BigEndianReadsBack(index);
    HeaderDecodes(name, value);
  }

  /** What a reader that goes by terminators meets in a header payload: two closed strings that fill it, which
      are the name and the value without its CRs before LFs exactly when these hold no NUL. */
  ghost predicate ReadsHeader(data: Bytes, name: Bytes, value: Bytes) {
    var lf := WithoutCrs(value, 0);
    |data| == |name| + |lf| + 2 && data[|name|] == 0 && data[|data| - 1] == 0 &&
    (ReadCString(data) == name && ReadCString(data[|name| + 1..]) == lf <==> 0 !in name && 0 !in value)
  }

  lemma HeaderReadsExactly(name: Bytes, value: Bytes)
    ensures HeaderPayload(name, value) == name + [NUL] + WithoutCrs(value, 0) + [NUL]
    ensures ReadsHeader(HeaderPayload(name, value), name, value)
  {
    var lf, data := WithoutCrs(value, 0), HeaderPayload(name, value);
    CrlfDeletesExactly(value);
    WithoutCrsBytes(value, 0);
    assert value[0..] == value;
    assert data == name + [NUL] + (lf + [NUL]);
    ReadCStringExact(name, lf + [NUL]);
    assert data[|name| + 1..] == lf + [NUL] == lf + [NUL] + [];
    ReadCStringExact(lf, []);
  }

  lemma IndexedHeaderReads(index: int, name: Bytes, value: Bytes)
    ensures var data := IndexedHeaderPayload(index, name, value);
            data == BigEndian(index) + name + [NUL] + WithoutCrs(value, 0) + [NUL] &&
            ReadsHeader(data[4..], name, value)
  {
    var lf, data, head := WithoutCrs(value, 0), IndexedHeaderPayload(index, name, value), BigEndian(index);
    HeaderReadsExactly(name, value);
    assert data[4..] == HeaderPayload(name, value);
    Regroup(head, name + [NUL] + lf, [NUL]);
    Regroup(head, name + [NUL], lf);
    Regroup(head, name, [NUL]);
  }

  datatype Message = Message(code: char, data: Bytes)

  const LESS: Byte := 60
  const GREATER: Byte := 62

  /** `packets` lists what was passed to WritePacket. */
  class Modifier {
    var packets: seq<Message>

    constructor ()
      ensures packets == []
    {
      packets := [];
    }

    method AddRecipient(r: Bytes)
      modifies this
      ensures packets == old(packets) + [Message('+', [60] + r + [62] + [0])]
      ensures ReadCString(packets[|packets| - 1].data) == [60] + r + [62] <==> 0 !in r
    {
      var addr := [LESS] + r + [GREATER];
      packets := packets + [Message('+', addr + [NUL])];
      ReadCStringExact(addr, []);
      assert addr + [NUL] + [] == addr + [NUL];
    }

    method DeleteRecipient(r: Bytes)
      modifies this
      ensures packets == old(packets) + [Message('-', [60] + r + [62] + [0])]
      ensures ReadCString(packets[|packets| - 1].data) == [60] + r + [62] <==> 0 !in r
    {
      var addr := [LESS] + r + [GREATER];
      packets := packets + [Message('-', addr + [NUL])];
      ReadCStringExact(addr, []);
      assert addr + [NUL] + [] == addr + [NUL];
    }

    method ReplaceBody(body: Bytes)
      modifies this
      ensures packets == old(packets) + [Message('b', WithoutCrs(body, 0))]
    {
      CrlfDeletesExactly(body);
      packets := packets + [Message('b', CrlfToLF(body))];
    }

    method AddHeader(name: Bytes, value: Bytes)
      modifies this
      ensures packets == old(packets) + [Message('h', name + [0] + WithoutCrs(value, 0) + [0])]
      ensures ReadsHeader(packets[|packets| - 1].data, name, value)
    {
      HeaderReadsExactly(name, value);
      var buffer := name + [NUL];
      buffer := buffer + CrlfToLF(value);
      buffer := buffer + [NUL];
      packets := packets + [Message('h', buffer)];
    }

    method ChangeHeader(index: int, name: Bytes, value: Bytes)
      modifies this
      ensures packets == old(packets) +
                         [Message('m', BigEndian(index) + name + [0] + WithoutCrs(value, 0) + [0])]
      ensures ReadsHeader(packets[|packets| - 1].data[4..], name, value)
    {
      IndexedHeaderReads(index, name, value);
      var buffer := IndexedBuffer(index, name, value);
      packets := packets + [Message('m', buffer)];
    }

    method InsertHeader(index: int, name: Bytes, value: Bytes)
      modifies this
      ensures packets == old(packets) +
                         [Message('i', BigEndian(index) + name + [0] + WithoutCrs(value, 0) + [0])]
      ensures ReadsHeader(packets[|packets| - 1].data[4..], name, value)
    {
      IndexedHeaderReads(index, name, value);
      var buffer := IndexedBuffer(index, name, value);
      packets := packets + [Message('i', buffer)];
    }

    static method IndexedBuffer(index: int, name: Bytes, value: Bytes) returns (buffer: Bytes)
      ensures buffer == IndexedHeaderPayload(index, name, value)
    {
      buffer := BigEndian(index);
      buffer := buffer + (name + [NUL]);
      buffer := buffer + CrlfToLF(value);
      buffer := buffer + [NUL];
    }
  }
}
