/** Splitting and rewriting strings (utils/split.h). */
module StringTools {
  import opened Collections

  // ----- Finding -----

  predicate At(s: string, t: string, i: nat) {
    i + |t| <= |s| && s[i..i + |t|] == t
  }

  ghost predicate Occurs(t: string, s: string) {
    exists i: nat :: At(s, t, i)
  }

  /** The least position from i on at which t occurs in s. */
  function Find(s: string, t: string, i: nat): (r: Option<nat>)
    ensures r.Some? ==> i <= r.value && At(s, t, r.value) && forall k: nat :: i <= k < r.value ==> !At(s, t, k)
    ensures r.None? ==> forall k: nat :: i <= k ==> !At(s, t, k)
    decreases |s| - i
  {
    if i + |t| > |s| then None else if At(s, t, i) then Some(i) else Find(s, t, i + 1)
  }

  function ReplaceAt(s: string, i: nat, n: nat, t: string): string
    requires i + n <= |s|
  {
    s[..i] + t + s[i + n..]
  }

  /** The string with its first occurrence of target, if there is one, replaced. */
  function ReplaceFirst(s: string, target: string, replacement: string): string {
    match Find(s, target, 0)
    case None => s
    case Some(i) => ReplaceAt(s, i, |target|, replacement)
  }

  lemma LeastIsFound(s: string, t: string, i: nat)
    requires At(s, t, i) && forall k: nat :: k < i ==> !At(s, t, k)
    ensures Find(s, t, 0) == Some(i)
  {
  }

  /** Wherever the target first occurs, it is exchanged, and the rest stays; without it the whole string does. */
  lemma OnlyTheFirstIsReplaced(a: string, target: string, b: string, replacement: string)
    requires forall k: nat :: k < |a| ==> !At(a + target + b, target, k)
    ensures ReplaceFirst(a + target + b, target, replacement) == a + replacement + b
    ensures forall s: string :: !Occurs(target, s) ==> ReplaceFirst(s, target, replacement) == s
  {
    var s := a + target + b;
    assert s[|a|..|a| + |target|] == target;
    LeastIsFound(s, target, |a|);
    assert s[..|a|] == a && s[|a| + |target|..] == b;
  }

  method ReplaceFirstString(original: string, target: string, replacement: string) returns (result: string)
    ensures result == ReplaceFirst(original, target, replacement)
  {
    result := original;
    var pos := Find(result, target, 0);
    if pos.Some? {
      result := ReplaceAt(result, pos.value, |target|, replacement);
    }
  }

  // ----- Replacing until nothing is left to replace -----

  function Rounds(s: string, sub: string, new_: string, n: nat): string
    decreases n
  {
    if n == 0 then s else ReplaceFirst(Rounds(s, sub, new_, n - 1), sub, new_)
  }

  /** The replacement loop comes to an end. */
  ghost predicate Ends(s: string, sub: string, new_: string) {
    exists n: nat :: !Occurs(sub, Rounds(s, sub, new_, n))
  }

  /** Every character c replaced by a string, in one pass. */
  function MapChars(s: string, c: char, t: string): string {
    if s == [] then [] else (if s[0] == c then t else [s[0]]) + MapChars(s[1..], c, t)
  }

  lemma {:induction false} MapCharsAppend(a: string, b: string, c: char, t: string)
    ensures MapChars(a + b, c, t) == MapChars(a, c, t) + MapChars(b, c, t)
  {
    if a == [] {
      assert a + b == b;
    } else {
      assert (a + b)[1..] == a[1..] + b;
      MapCharsAppend(a[1..], b, c, t);
    }
  }

  lemma {:induction false} MapCharsWithout(s: string, c: char, t: string)
    requires c !in s
    ensures MapChars(s, c, t) == s
  {
    if s != [] {
      MapCharsWithout(s[1..], c, t);
    }
  }

  function CountChar(s: string, c: char): nat {
    if s == [] then 0 else (if s[0] == c then 1 else 0) + CountChar(s[1..], c)
  }

  lemma {:induction false} CountAppend(a: string, b: string, c: char)
    ensures CountChar(a + b, c) == CountChar(a, c) + CountChar(b, c)
  {
    if a == [] {
      assert a + b == b;
    } else {
      assert (a + b)[1..] == a[1..] + b;
      CountAppend(a[1..], b, c);
    }
  }

  lemma {:induction false} CountWithout(s: string, c: char)
    requires c !in s
    ensures CountChar(s, c) == 0
  {
    if s != [] {
      CountWithout(s[1..], c);
    }
  }

  /** Replacing one character by a string without it keeps the mapped string, and leaves one fewer. */
  lemma ReplaceCharStep(s: string, i: nat, c: char, t: string)
    requires i < |s| && s[i] == c && c !in t
    ensures MapChars(ReplaceAt(s, i, 1, t), c, t) == MapChars(s, c, t)
    ensures CountChar(ReplaceAt(s, i, 1, t), c) == CountChar(s, c) - 1
  {
    var a, b := s[..i], s[i + 1..];
    assert s == a + ([c] + b) && ReplaceAt(s, i, 1, t) == a + (t + b);
    MapCharsAppend(a, [c] + b, c, t);
    MapCharsAppend([c], b, c, t);
    MapCharsAppend(a, t + b, c, t);
    MapCharsAppend(t, b, c, t);
    MapCharsWithout(t, c, t);
    assert MapChars([c], c, t) == t;
    CountAppend(a, [c] + b, c);
    CountAppend([c], b, c);
    CountAppend(a, t + b, c);
    CountAppend(t, b, c);
    CountWithout(t, c);
  }

  lemma OccursChar(s: string, c: char)
    ensures Occurs([c], s) <==> c in s
  {
    if c in s {
      var i :| 0 <= i < |s| && s[i] == c;
      assert At(s, [c], i);
    }
    if Occurs([c], s) {
      var i: nat :| At(s, [c], i);
      assert s[i..i + 1][0] == c;
    }
  }

  predicate OneChar(sub: string, new_: string) {
    |sub| == 1 && sub[0] !in new_
  }

  ghost function Measure(s: string, sub: string, new_: string): nat
    requires |new_| < |sub| || OneChar(sub, new_)
  {
    if OneChar(sub, new_) then CountChar(s, sub[0]) else |s|
  }

  lemma RoundStep(s: string, sub: string, new_: string, i: nat)
    requires |new_| < |sub| || OneChar(sub, new_)
    requires At(s, sub, i)
    ensures Occurs(sub, s)
    ensures Measure(ReplaceAt(s, i, |sub|, new_), sub, new_) < Measure(s, sub, new_)
    ensures OneChar(sub, new_) ==> MapChars(ReplaceAt(s, i, |sub|, new_), sub[0], new_) == MapChars(s, sub[0], new_)
  {
    if OneChar(sub, new_) {
      assert s[i..i + 1][0] == s[i];
      ReplaceCharStep(s, i, sub[0], new_);
    }
  }

  lemma NothingLeft(s: string, sub: string, new_: string)
    requires OneChar(sub, new_) && !Occurs(sub, s)
    ensures MapChars(s, sub[0], new_) == s
  {
    assert sub == [sub[0]];
    OccursChar(s, sub[0]);
    MapCharsWithout(s, sub[0], new_);
  }

  /** The string is what n replacements give, each of which was possible. */
  ghost predicate After(s: string, sub: string, new_: string, n: nat, t: string) {
    t == Rounds(s, sub, new_, n) && forall k: nat :: k < n ==> Occurs(sub, Rounds(s, sub, new_, k))
  }

  /**
   Replaces the first occurrence again and again. It ends, with no occurrence left, if the
   replacement is shorter, or does not contain the one character that is replaced.
   */
  method SubReplace(resource: string, sub: string, new_: string) returns (dst: string, ghost n: nat)
    requires |new_| < |sub| || OneChar(sub, new_)
    ensures !Occurs(sub, dst)
    ensures After(resource, sub, new_, n, dst)
    ensures OneChar(sub, new_) ==> dst == MapChars(resource, sub[0], new_)
  {
    dst, n := resource, 0;
    var pos := Find(dst, sub, 0);
    while pos != None
      invariant pos == Find(dst, sub, 0)
      invariant After(resource, sub, new_, n, dst)
      invariant OneChar(sub, new_) ==> MapChars(dst, sub[0], new_) == MapChars(resource, sub[0], new_)
      decreases Measure(dst, sub, new_)
    {
      RoundStep(dst, sub, new_, pos.value);
      dst := ReplaceAt(dst, pos.value, |sub|, new_);
      n := n + 1;
      pos := Find(dst, sub, 0);
    }
    if OneChar(sub, new_) {
      NothingLeft(dst, sub, new_);
    }
  }

  lemma InnerOccurrence(t: string, i: nat, n: nat, new_: string, sub: string, j: nat)
    requires i + n <= |t| && At(new_, sub, j)
    ensures At(ReplaceAt(t, i, n, new_), sub, i + j)
  {
    var u := ReplaceAt(t, i, n, new_);
    assert u[i..i + |new_|] == new_;
    assert u[i..i + |new_|][j..j + |sub|] == u[i + j..i + j + |sub|];
  }

  /** A replacement that contains what it replaces keeps the loop going for ever. */
  lemma {:induction false} SelfReplacementNeverEnds(s: string, sub: string, new_: string, n: nat)
    requires Occurs(sub, new_) && Occurs(sub, s)
    ensures Occurs(sub, Rounds(s, sub, new_, n))
    decreases n
  {
    if n > 0 {
      SelfReplacementNeverEnds(s, sub, new_, n - 1);
      var t := Rounds(s, sub, new_, n - 1);
      var i := Find(t, sub, 0).value;
      var j: nat :| At(new_, sub, j);
      InnerOccurrence(t, i, |sub|, new_, sub, j);
    }
  }

  /** A shorter replacement always ends. */
  lemma ShorterReplacementEnds(s: string, sub: string, new_: string)
    requires |new_| < |sub|
    ensures Ends(s, sub, new_)
  {
    var n := 0;
    while Find(Rounds(s, sub, new_, n), sub, 0) != None
      decreases |Rounds(s, sub, new_, n)|
    {
      n := n + 1;
    }
  }

  lemma CharEnds(s: string, c: char, new_: string) returns (n: nat)
    requires c !in new_
    ensures !Occurs([c], Rounds(s, [c], new_, n))
  {
    n := 0;
    while Find(Rounds(s, [c], new_, n), [c], 0) != None
      decreases CountChar(Rounds(s, [c], new_, n), c)
    {
      var t := Rounds(s, [c], new_, n);
      var i := Find(t, [c], 0).value;
      assert t[i..i + 1][0] == c;
      ReplaceCharStep(t, i, c, new_);
      n := n + 1;
    }
  }

  /** Replacing one character ends exactly if there is none, or the replacement has none. */
  lemma WhenCharReplacementEnds(s: string, c: char, new_: string)
    ensures Ends(s, [c], new_) <==> c !in s || c !in new_
  {
    OccursChar(s, c);
    OccursChar(new_, c);
    if c !in new_ {
      var n := CharEnds(s, c, new_);
    } else if c !in s {
      assert Rounds(s, [c], new_, 0) == s;
    } else {
      forall n: nat ensures Occurs([c], Rounds(s, [c], new_, n)) {
        SelfReplacementNeverEnds(s, [c], new_, n);
      }
    }
  }

  // ----- Splitting -----

  function Index(s: string, d: char): (r: Option<nat>)
    ensures r.Some? ==> r.value < |s| && s[r.value] == d && d !in s[..r.value]
    ensures r.None? ==> d !in s
  {
    if s == [] then None
    else if s[0] == d then Some(0)
    else
      match Index(s[1..], d)
      case None => None
      case Some(i) => Some(i + 1)
  }

  /** What reading s piece by piece up to each delimiter gives; after a final delimiter there is no piece. */
  function Split(s: string, d: char): seq<string>
    decreases |s|
  {
    if s == [] then [] else
      match Index(s, d)
      case None => [s]
      case Some(i) => [s[..i]] + Split(s[i + 1..], d)
  }

  method SplitInto(s: string, d: char) returns (sv: seq<string>)
    ensures sv == Split(s, d)
  {
    sv := [];
    var rest := s;
    while rest != []
      invariant sv + Split(rest, d) == Split(s, d)
      decreases |rest|
    {
      var i := Index(rest, d);
      var piece, after := rest, [];
      if i.Some? {
        piece, after := rest[..i.value], rest[i.value + 1..];
      }
      assert Split(rest, d) == [piece] + Split(after, d);
      assert sv + ([piece] + Split(after, d)) == (sv + [piece]) + Split(after, d);
      sv := sv + [piece];
      rest := after;
    }
  }

  function Join(ps: seq<string>, d: char): string {
    if ps == [] then [] else if |ps| == 1 then ps[0] else ps[0] + [d] + Join(ps[1..], d)
  }

  ghost predicate Free(ps: seq<string>, d: char) {
    forall i :: 0 <= i < |ps| ==> d !in ps[i]
  }

  lemma JoinCons(p: string, ps: seq<string>, d: char)
    requires ps != []
    ensures Join([p] + ps, d) == p + [d] + Join(ps, d)
  {
    assert ([p] + ps)[1..] == ps;
  }

  lemma {:induction false} PiecesAreFree(s: string, d: char)
    ensures Free(Split(s, d), d)
    ensures s != [] ==> Split(s, d) != []
    decreases |s|
  {
    if s != [] && Index(s, d).Some? {
      PiecesAreFree(s[Index(s, d).value + 1..], d);
    }
  }

  function LastDelim(s: string, d: char): string {
    if s != [] && s[|s| - 1] == d then [d] else []
  }

  lemma JoinOfParts(s: string, p: string, rest: string, d: char)
    requires s == p + [d] + rest && Split(s, d) == [p] + Split(rest, d)
    requires rest == Join(Split(rest, d), d) + LastDelim(rest, d) && (rest != [] ==> Split(rest, d) != [])
    ensures s == Join(Split(s, d), d) + LastDelim(s, d)
  {
    if rest == [] {
      assert Split(s, d) == [p];
    } else {
      JoinCons(p, Split(rest, d), d);
      assert LastDelim(s, d) == LastDelim(rest, d);
      assert p + [d] + (Join(Split(rest, d), d) + LastDelim(rest, d))
          == (p + [d] + Join(Split(rest, d), d)) + LastDelim(rest, d);
    }
  }

  /** Joining the pieces gives the string back, but for one delimiter at its end; no piece has a delimiter. */
  lemma {:induction false} JoinOfSplit(s: string, d: char)
    ensures s == Join(Split(s, d), d) + LastDelim(s, d)
    ensures Free(Split(s, d), d)
    decreases |s|
  {
    PiecesAreFree(s, d);
    if s != [] && Index(s, d).Some? {
      var i := Index(s, d).value;
      var p, rest := s[..i], s[i + 1..];
      JoinOfSplit(rest, d);
      PiecesAreFree(rest, d);
      JoinOfParts(s, p, rest, d);
    }
  }

  lemma {:induction false} IndexIs(s: string, i: nat, d: char)
    requires i < |s| && s[i] == d && d !in s[..i]
    ensures Index(s, d) == Some(i)
    decreases i
  {
    if i > 0 {
      assert s[0] in s[..i];
      assert s[1..][..i - 1] == s[..i][1..];
      IndexIs(s[1..], i - 1, d);
    }
  }

  lemma SplitOfCons(p: string, rest: string, d: char)
    requires d !in p
    ensures Split(p + [d] + rest, d) == [p] + Split(rest, d)
  {
    var s := p + [d] + rest;
    assert s[..|p|] == p && s[|p| + 1..] == rest;
    IndexIs(s, |p|, d);
  }

  lemma SplitOfOne(p: string, d: char)
    requires d !in p
    ensures Split(p, d) == if p == [] then [] else [p]
  {
  }

  /** Splitting joined pieces gives them back, but for a last piece that is empty. */
  lemma {:induction false} SplitOfJoin(ps: seq<string>, d: char)
    requires ps != [] && Free(ps, d)
    ensures Split(Join(ps, d), d) == if ps[|ps| - 1] == [] then ps[..|ps| - 1] else ps
    decreases |ps|
  {
    var p, rest := ps[0], ps[1..];
    if rest == [] {
      SplitOfOne(p, d);
      assert ps == [p];
    } else {
      SplitOfJoin(rest, d);
      SplitOfCons(p, Join(rest, d), d);
      JoinCons(p, rest, d);
      ConsPrefix(p, rest, ps);
    }
  }

  lemma ConsPrefix(p: string, rest: seq<string>, ps: seq<string>)
    requires rest != [] && ps != [] && p == ps[0] && rest == ps[1..]
    ensures ps == [p] + rest && ps[..|ps| - 1] == [p] + rest[..|rest| - 1] && ps[|ps| - 1] == rest[|rest| - 1]
  {
  }
}
