/** The functions of Go's "strings" and "bytes" packages that the modelled code calls, on sequences
    of any element type: bytes, or runes when the separators involved are single runes. */
module GoStrings {
  datatype Option<+T> = None | Some(value: T)

  predicate OccursAt<T(==)>(s: seq<T>, sub: seq<T>, i: int) {
    0 <= i && i + |sub| <= |s| && s[i..i + |sub|] == sub
  }

  ghost predicate Contains<T>(s: seq<T>, sub: seq<T>) {
    exists i :: OccursAt(s, sub, i)
  }

  /** The first position at or after `from` where `sub` occurs, or -1. */
  function IndexFrom<T(==)>(s: seq<T>, sub: seq<T>, from: nat): (r: int)
    requires from <= |s|
    ensures r == -1 ==> forall i :: from <= i ==> !OccursAt(s, sub, i)
    ensures r != -1 ==> from <= r && OccursAt(s, sub, r) && forall i :: from <= i < r ==> !OccursAt(s, sub, i)
    decreases |s| - from
  {
    if OccursAt(s, sub, from) then from
    else if from == |s| then -1
    else IndexFrom(s, sub, from + 1)
  }

  /** strings.Index. */
  function Index<T(==)>(s: seq<T>, sub: seq<T>): (r: int)
    ensures r == -1 <==> !Contains(s, sub)
    ensures r != -1 ==> OccursAt(s, sub, r) && forall i :: 0 <= i < r ==> !OccursAt(s, sub, i)
  {
    IndexFrom(s, sub, 0)
  }

  /** strings.Split with a non-empty separator. */
  function Split<T(==)>(s: seq<T>, sep: seq<T>): (parts: seq<seq<T>>)
    requires |sep| > 0
    ensures |parts| >= 1
    decreases |s|
  {
    var i := Index(s, sep);
    if i == -1 then [s] else [s[..i]] + Split(s[i + |sep|..], sep)
  }

  /** strings.SplitN with a non-empty separator and n >= 1: the last part is the unsplit rest. */
  function SplitN<T(==)>(s: seq<T>, sep: seq<T>, n: nat): (parts: seq<seq<T>>)
    requires |sep| > 0 && n >= 1
    ensures 1 <= |parts| <= n
    decreases n
  {
    var i := Index(s, sep);
    if n == 1 || i == -1 then [s] else [s[..i]] + SplitN(s[i + |sep|..], sep, n - 1)
  }

  /** strings.Join. */
  function Join<T>(parts: seq<seq<T>>, sep: seq<T>): seq<T> {
    if |parts| == 0 then []
    else if |parts| == 1 then parts[0]
    else parts[0] + sep + Join(parts[1..], sep)
  }

  /** strings.TrimRight with a one-element cut set. */
  function TrimRight<T(==)>(s: seq<T>, c: T): (r: seq<T>)
    ensures |r| <= |s| && r == s[..|r|]
    ensures forall i :: |r| <= i < |s| ==> s[i] == c
    ensures r == [] || r[|r| - 1] != c
  {
    if |s| > 0 && s[|s| - 1] == c then TrimRight(s[..|s| - 1], c) else s
  }

  /** strings.TrimLeft with a one-element cut set. */
  function TrimLeft<T(==)>(s: seq<T>, c: T): (r: seq<T>)
    ensures |r| <= |s| && r == s[|s| - |r|..]
    ensures forall i :: 0 <= i < |s| - |r| ==> s[i] == c
    ensures r == [] || r[0] != c
  {
    if |s| > 0 && s[0] == c then TrimLeft(s[1..], c) else s
  }

  /** strings.ReplaceAll with a non-empty pattern: left to right, non-overlapping. */
  function ReplaceAll<T(==)>(s: seq<T>, pattern: seq<T>, with: seq<T>): seq<T>
    requires |pattern| > 0
  {
    if s == [] then []
    else if OccursAt(s, pattern, 0) then with + ReplaceAll(s[|pattern|..], pattern, with)
    else [s[0]] + ReplaceAll(s[1..], pattern, with)
  }

  lemma Regroup<T>(a: seq<T>, b: seq<T>, c: seq<T>)
    ensures (a + b) + c == a + (b + c)
  {
  }

  lemma HeadMoves<T>(done: seq<T>, rest: seq<T>, n: nat)
    requires n <= |rest|
    ensures done + rest == (done + rest[..n]) + rest[n..]
  {
  }

  // ---- what filters keep

  ghost predicate Ascending(ps: seq<nat>) {
    forall i, j :: 0 <= i < j < |ps| ==> ps[i] < ps[j]
  }

  lemma AscendingCons(p: nat, ps: seq<nat>)
    requires Ascending(ps) && forall q :: q in ps ==> p < q
    ensures Ascending([p] + ps)
  {
    var all := [p] + ps;
    forall i, j | 0 <= i < j < |all| ensures all[i] < all[j] { assert all[j] in ps; }
  }

  /** r is what s holds at these places. */
  ghost predicate Picks<T>(s: seq<T>, ps: seq<nat>, r: seq<T>) {
    |r| == |ps| && forall i :: 0 <= i < |ps| ==> ps[i] < |s| && r[i] == s[ps[i]]
  }

  lemma PicksCons<T>(s: seq<T>, p: nat, ps: seq<nat>, r: seq<T>)
    requires p < |s| && Picks(s, ps, r)
    ensures Picks(s, [p] + ps, [s[p]] + r)
  {
  }

  function Without<T(==)>(s: seq<T>, c: T): seq<T> {
    if s == [] then [] else if s[0] == c then Without(s[1..], c) else [s[0]] + Without(s[1..], c)
  }

  function Except<T(==)>(s: seq<T>, out: set<T>): seq<T> {
    if s == [] then [] else if s[0] in out then Except(s[1..], out) else [s[0]] + Except(s[1..], out)
  }

  lemma ExceptStep<T>(s: seq<T>, out: set<T>, i: nat)
    requires i < |s|
    ensures var rest := Except(s[i + 1..], out); Except(s[i..], out) == if s[i] in out then rest else [s[i]] + rest
  {
    assert s[i..][0] == s[i] && s[i..][1..] == s[i + 1..];
  }

  function Flatten<T>(parts: seq<seq<T>>): seq<T> {
    if parts == [] then [] else parts[0] + Flatten(parts[1..])
  }

  /** The lists that come back unchanged from joining and splitting: in every part but the last the
      separator that follows it is the first one found, and the last part holds none. */
  ghost predicate Splittable<T(!new)>(parts: seq<seq<T>>, sep: seq<T>)
    requires |sep| > 0
  {
    |parts| >= 1 &&
    (forall i :: 0 <= i < |parts| - 1 ==> Index(parts[i] + sep, sep) == |parts[i]|) &&
    !Contains(parts[|parts| - 1], sep)
  }

  lemma IndexInPrefix<T(!new)>(a: seq<T>, sep: seq<T>, rest: seq<T>)
    requires |sep| > 0
    ensures Index(a + sep + rest, sep) == Index(a + sep, sep)
  {
    var s, p := a + sep + rest, a + sep;
    forall i | 0 <= i <= |a| ensures OccursAt(s, sep, i) == OccursAt(p, sep, i) {
      assert s[i..i + |sep|] == p[i..i + |sep|];
    }
    assert OccursAt(p, sep, |a|);
    assert Contains(p, sep);
    assert OccursAt(s, sep, |a|);
    assert Contains(s, sep);
  }

  /** One step of splitting: a first part in front of its separator is found exactly when the separator
      does not turn up earlier. */
  lemma SplitStep<T(!new)>(a: seq<T>, sep: seq<T>, rest: seq<T>)
    requires |sep| > 0
    ensures Index(a + sep, sep) == |a| ==> Split(a + sep + rest, sep) == [a] + Split(rest, sep)
    ensures Index(a + sep, sep) != |a| ==> Split(a + sep + rest, sep)[0] != a
  {
    var s := a + sep + rest;
    IndexInPrefix(a, sep, rest);
    assert OccursAt(s, sep, |a|) by { assert s[|a|..|a| + |sep|] == sep; }
    assert Contains(s, sep);
    var i := Index(s, sep);
    assert s[..|a|] == a && s[|a| + |sep|..] == rest;
    assert |s[..i]| == i;
  }

  lemma ConsEqual<T>(a: T, x: seq<T>, b: T, y: seq<T>)
    ensures [a] + x == [b] + y <==> a == b && x == y
  {
    var s, t := [a] + x, [b] + y;
    assert s[0] == a && s[1..] == x && t[0] == b && t[1..] == y;
  }

  lemma SplitJoinStep<T(!new)>(a: seq<T>, tail: seq<seq<T>>, sep: seq<T>)
    requires |sep| > 0 && |tail| >= 1
    ensures Split(Join([a] + tail, sep), sep) == [a] + tail <==>
            Index(a + sep, sep) == |a| && Split(Join(tail, sep), sep) == tail
  {
    var parts, joined := [a] + tail, Join(tail, sep);
    assert parts[1..] == tail;
    assert Join(parts, sep) == a + sep + joined;
    SplitStep(a, sep, joined);
    ConsEqual(a, Split(joined, sep), a, tail);
  }

  /** Splitting undoes joining exactly for the splittable lists. */
  lemma {:induction false} SplitJoin<T(!new)>(parts: seq<seq<T>>, sep: seq<T>)
    requires |sep| > 0 && |parts| >= 1
    ensures Split(Join(parts, sep), sep) == parts <==> Splittable(parts, sep)
  {
    if |parts| == 1 {
      if !Contains(parts[0], sep) {
        assert Split(parts[0], sep) == [parts[0]] == parts;
      } else {
        assert |Split(parts[0], sep)| >= 2;
      }
    } else {
      var tail := parts[1..];
      assert parts == [parts[0]] + tail;
      SplitJoinStep(parts[0], tail, sep);
      SplitJoin(tail, sep);
      SplittableCons(parts, sep);
    }
  }

  lemma SplittableCons<T(!new)>(parts: seq<seq<T>>, sep: seq<T>)
    requires |sep| > 0 && |parts| >= 2
    ensures Splittable(parts, sep) <==> Index(parts[0] + sep, sep) == |parts[0]| && Splittable(parts[1..], sep)
  {
    var tail := parts[1..];
    assert tail[|tail| - 1] == parts[|parts| - 1];
    if Index(parts[0] + sep, sep) == |parts[0]| && Splittable(tail, sep) {
      forall i | 0 <= i < |parts| - 1 ensures Index(parts[i] + sep, sep) == |parts[i]| {
        if i > 0 { assert parts[i] == tail[i - 1]; }
      }
    }
    if Splittable(parts, sep) {
      forall i | 0 <= i < |tail| - 1 ensures Index(tail[i] + sep, sep) == |tail[i]| {
        assert tail[i] == parts[i + 1];
      }
    }
  }

  lemma JoinCons<T>(first: seq<T>, parts: seq<seq<T>>, sep: seq<T>)
    requires parts != []
    ensures Join([first] + parts, sep) == first + sep + Join(parts, sep)
  {
    var all := [first] + parts;
    assert all[1..] == parts;
  }

  lemma CutOut<T>(s: seq<T>, sub: seq<T>, i: nat)
    requires OccursAt(s, sub, i)
    ensures s == s[..i] + sub + s[i + |sub|..]
  {
    var a, b := s[..i], s[i + |sub|..];
    assert s[i..] == sub + b;
    assert s == a + s[i..];
    Regroup(a, sub, b);
  }

  /** Joining undoes splitting, always. */
  lemma {:induction false} JoinSplit<T(!new)>(s: seq<T>, sep: seq<T>)
    requires |sep| > 0
    ensures Join(Split(s, sep), sep) == s
    decreases |s|
  {
    var i := Index(s, sep);
    if i == -1 {
      assert Split(s, sep) == [s];
    } else {
      var first, rest := s[..i], s[i + |sep|..];
      var parts := Split(rest, sep);
      JoinSplit(rest, sep);
      JoinCons(first, parts, sep);
      assert Split(s, sep) == [first] + parts;
      assert s == first + sep + rest by { CutOut(s, sep, i); }
    }
  }

  lemma OccursOne<T(!new)>(s: seq<T>, c: T, i: int)
    ensures OccursAt(s, [c], i) <==> 0 <= i < |s| && s[i] == c
  {
    if 0 <= i < |s| {
      assert s[i..i + 1] == [s[i]];
    }
  }

  lemma ContainsOne<T(!new)>(s: seq<T>, c: T)
    ensures Contains(s, [c]) <==> c in s
  {
    forall i ensures OccursAt(s, [c], i) <==> 0 <= i < |s| && s[i] == c { OccursOne(s, c, i); }
  }

  lemma IndexOne<T(!new)>(a: seq<T>, c: T)
    ensures Index(a + [c], [c]) == |a| <==> c !in a
  {
    var s := a + [c];
    forall i ensures OccursAt(s, [c], i) <==> 0 <= i < |s| && s[i] == c { OccursOne(s, c, i); }
    assert OccursAt(s, [c], |a|);
    if c in a {
      var i :| 0 <= i < |a| && a[i] == c;
      assert OccursAt(s, [c], i);
    }
  }

  /** With a one-element separator, a list survives joining and splitting exactly when no part holds it. */
  lemma SplitJoinOne<T(!new)>(parts: seq<seq<T>>, c: T)
    requires |parts| >= 1
    ensures Split(Join(parts, [c]), [c]) == parts <==> forall i :: 0 <= i < |parts| ==> c !in parts[i]
  {
    SplitJoin(parts, [c]);
    forall i | 0 <= i < |parts| - 1 ensures Index(parts[i] + [c], [c]) == |parts[i]| <==> c !in parts[i] {
      IndexOne(parts[i], c);
    }
    ContainsOne(parts[|parts| - 1], c);
  }

  lemma IndexCons<T(!new)>(x: T, s: seq<T>, c: T)
    ensures var i := Index(s, [c]);
            Index([x] + s, [c]) == if x == c then 0 else if i == -1 then -1 else i + 1
  {
    var t := [x] + s;
    forall i ensures OccursAt(s, [c], i) <==> 0 <= i < |s| && s[i] == c { OccursOne(s, c, i); }
    forall i ensures OccursAt(t, [c], i) <==> 0 <= i < |t| && t[i] == c { OccursOne(t, c, i); }
    var i := Index(s, [c]);
    if x == c {
      assert t[0] == c;
    } else if i != -1 {
      assert t[i + 1] == c;
    }
  }

  /** Splitting on one element, seen from the first element of the text. */
  lemma SplitCons<T(!new)>(x: T, s: seq<T>, c: T)
    ensures var rest := Split(s, [c]);
            Split([x] + s, [c]) == if x == c then [[]] + rest else [[x] + rest[0]] + rest[1..]
  {
    var t, i := [x] + s, Index(s, [c]);
    IndexCons(x, s, c);
    if x == c {
      assert t[1..] == s && t[..0] == [];
    } else if i == -1 {
      assert Split(s, [c]) == [s] && [s][1..] == [];
      assert Split(t, [c]) == [t];
    } else {
      var rest := Split(s[i + 1..], [c]);
      assert Split(s, [c]) == [s[..i]] + rest;
      assert t[..i + 1] == [x] + s[..i] && t[i + 2..] == s[i + 1..];
      assert Split(t, [c]) == [t[..i + 1]] + rest;
    }
  }

  /** No part of a split holds the separator element. */
  lemma {:induction false} SplitPartsFree<T(!new)>(s: seq<T>, c: T)
    ensures forall k :: 0 <= k < |Split(s, [c])| ==> c !in Split(s, [c])[k]
    decreases |s|
  {
    if s == [] {
      ContainsOne(s, c);
    } else {
      SplitCons(s[0], s[1..], c);
      SplitPartsFree(s[1..], c);
      assert s == [s[0]] + s[1..];
    }
  }

  /** Replacing one element by nothing removes exactly its occurrences. */
  lemma {:induction false} ReplaceIsWithout<T(!new)>(s: seq<T>, c: T)
    ensures ReplaceAll(s, [c], []) == Without(s, c)
  {
    if s != [] {
      OccursOne(s, c, 0);
      ReplaceIsWithout(s[1..], c);
    }
  }

  lemma {:induction false} WithoutConcat<T>(a: seq<T>, b: seq<T>, c: T)
    ensures Without(a + b, c) == Without(a, c) + Without(b, c)
  {
    var s := a + b;
    if a == [] {
      assert s == b;
    } else {
      assert s[0] == a[0] && s[1..] == a[1..] + b;
      WithoutConcat(a[1..], b, c);
    }
  }

  lemma {:induction false} WithoutSound<T>(s: seq<T>, c: T)
    ensures c !in Without(s, c) && forall x :: x in Without(s, c) ==> x in s
  {
    if s != [] {
      WithoutSound(s[1..], c);
    }
  }

  function PlacesExcept<T(==)>(s: seq<T>, out: set<T>, p: nat): seq<nat>
    requires p <= |s|
    decreases |s| - p
  {
    if p == |s| then [] else if s[p] in out then PlacesExcept(s, out, p + 1) else [p] + PlacesExcept(s, out, p + 1)
  }

  lemma {:induction false} PlacesExceptAt<T>(s: seq<T>, out: set<T>, p: nat)
    requires p <= |s|
    ensures Ascending(PlacesExcept(s, out, p))
    ensures forall q: nat :: q in PlacesExcept(s, out, p) <==> p <= q < |s| && s[q] !in out
    decreases |s| - p
  {
    if p < |s| {
      PlacesExceptAt(s, out, p + 1);
      if s[p] !in out { AscendingCons(p, PlacesExcept(s, out, p + 1)); }
    }
  }

  lemma {:induction false} ExceptFrom<T>(s: seq<T>, out: set<T>, p: nat)
    requires p <= |s|
    ensures Picks(s, PlacesExcept(s, out, p), Except(s[p..], out))
    decreases |s| - p
  {
    if p < |s| {
      ExceptFrom(s, out, p + 1);
      ExceptStep(s, out, p);
      PicksCons(s, p, PlacesExcept(s, out, p + 1), Except(s[p + 1..], out));
    }
  }

  /** What is left is all that is not in the set, in order. */
  lemma ExceptExactly<T>(s: seq<T>, out: set<T>) returns (ps: seq<nat>)
    ensures Ascending(ps) && forall q: nat :: q in ps <==> q < |s| && s[q] !in out
    ensures Picks(s, ps, Except(s, out))
  {
    ps := PlacesExcept(s, out, 0);
    PlacesExceptAt(s, out, 0);
    ExceptFrom(s, out, 0);
    assert s[0..] == s;
  }

  lemma {:induction false} WithoutIsExcept<T>(s: seq<T>, c: T)
    ensures Without(s, c) == Except(s, {c})
  {
    if s != [] {
      WithoutIsExcept(s[1..], c);
    }
  }

  lemma WithoutExactly<T>(s: seq<T>, c: T) returns (ps: seq<nat>)
    ensures Ascending(ps) && forall q: nat :: q in ps <==> q < |s| && s[q] != c
    ensures Picks(s, ps, Without(s, c))
  {
    WithoutIsExcept(s, c);
    ps := ExceptExactly(s, {c});
  }

  // ---- lists written with a terminator after each part

  function Terminated<T>(parts: seq<seq<T>>, end: T): seq<T> {
    if parts == [] then [] else parts[0] + [end] + Terminated(parts[1..], end)
  }

  function DropTrailingEmpty<T>(parts: seq<seq<T>>): (r: seq<seq<T>>)
    ensures |r| <= |parts| && r == parts[..|r|] && (r == [] || |r[|r| - 1]| > 0)
    ensures forall i :: |r| <= i < |parts| ==> |parts[i]| == 0
  {
    if |parts| > 0 && |parts[|parts| - 1]| == 0 then DropTrailingEmpty(parts[..|parts| - 1]) else parts
  }

  ghost predicate FreeOf<T>(parts: seq<seq<T>>, c: T) {
    forall i :: 0 <= i < |parts| ==> c !in parts[i]
  }

  lemma {:induction false} TerminatedSnoc<T>(front: seq<seq<T>>, z: seq<T>, end: T)
    ensures Terminated(front + [z], end) == Terminated(front, end) + (z + [end])
  {
    var parts := front + [z];
    if front == [] {
      assert parts[1..] == [];
      assert z + [end] + [] == [] + (z + [end]);
    } else {
      assert parts[0] == front[0] && parts[1..] == front[1..] + [z];
      TerminatedSnoc(front[1..], z, end);
      var a, b := front[0] + [end], Terminated(front[1..], end);
      assert a + (b + (z + [end])) == (a + b) + (z + [end]);
    }
  }

  lemma {:induction false} TerminatedConcat<T>(a: seq<seq<T>>, b: seq<seq<T>>, end: T)
    ensures Terminated(a + b, end) == Terminated(a, end) + Terminated(b, end)
  {
    var parts := a + b;
    if a == [] {
      assert parts == b;
    } else {
      assert parts[0] == a[0] && parts[1..] == a[1..] + b;
      TerminatedConcat(a[1..], b, end);
      var u, v, w := a[0] + [end], Terminated(a[1..], end), Terminated(b, end);
      assert u + (v + w) == (u + v) + w;
    }
  }

  lemma {:induction false} TerminatedIsJoin<T>(parts: seq<seq<T>>, end: T)
    requires parts != []
    ensures Terminated(parts, end) == Join(parts, [end]) + [end]
  {
    if |parts| > 1 {
      TerminatedIsJoin(parts[1..], end);
      var a, b := parts[0] + [end], Join(parts[1..], [end]);
      assert a + (b + [end]) == (a + b) + [end];
    } else {
      assert Terminated(parts[1..], end) == [];
      assert parts[0] + [end] + [] == parts[0] + [end];
    }
  }

  lemma {:induction false} JoinEnd<T>(parts: seq<seq<T>>, sep: seq<T>)
    requires parts != [] && |parts[|parts| - 1]| > 0
    ensures var s, z := Join(parts, sep), parts[|parts| - 1]; |s| > 0 && s[|s| - 1] == z[|z| - 1]
  {
    if |parts| > 1 {
      assert parts[1..][|parts[1..]| - 1] == parts[|parts| - 1];
      JoinEnd(parts[1..], sep);
    }
  }

  lemma {:induction false} TrimTerminated<T(!new)>(parts: seq<seq<T>>, end: T)
    requires FreeOf(parts, end)
    ensures TrimRight(Terminated(parts, end), end) == Join(DropTrailingEmpty(parts), [end])
    decreases |parts|
  {
    if parts != [] {
      var front, z := parts[..|parts| - 1], parts[|parts| - 1];
      assert parts == front + [z];
      var data := Terminated(parts, end);
      if |z| == 0 {
        TerminatedSnoc(front, z, end);
        assert data == Terminated(front, end) + [end];
        assert data[..|data| - 1] == Terminated(front, end);
        TrimTerminated(front, end);
      } else {
        TerminatedIsJoin(parts, end);
        JoinEnd(parts, [end]);
        assert z[|z| - 1] in z;
        assert data[..|data| - 1] == Join(parts, [end]);
      }
    }
  }

  /** Trimming and splitting what was written with terminators gives the parts back, less the empty ones
      at the end; nothing but empty parts gives one empty part. */
  lemma SplitTerminated<T(!new)>(parts: seq<seq<T>>, end: T)
    requires FreeOf(parts, end)
    ensures var core := DropTrailingEmpty(parts);
            Split(TrimRight(Terminated(parts, end), end), [end]) == if core == [] then [[]] else core
  {
    var core := DropTrailingEmpty(parts);
    TrimTerminated(parts, end);
    if core != [] {
      assert FreeOf(core, end) by {
        forall i | 0 <= i < |core| ensures end !in core[i] { assert core[i] == parts[i]; }
      }
      SplitJoinOne(core, end);
    } else {
      var s: seq<T> := Join(core, [end]);
      ContainsOne(s, end);
      assert Split(s, [end]) == [s];
    }
  }
}
