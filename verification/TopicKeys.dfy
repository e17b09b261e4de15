/** The channel keys of topics (dds/zenoh_topic_manager.cpp) and the keys of single nodes made from templates. */
module TopicKeys {
  import opened Collections
  import opened StringTools

  datatype Domain = DEFAULT | MEMORY | TIMES | S3 | DDS | FILE

  datatype Direction = UP | DOWN | BOTH

  datatype Topic = Topic(
    domain: Domain,
    project: string,
    business: string,
    region: string,
    nodeId: string,
    module_: string,
    function_: string,
    direction: Direction)

  function GetDomainString(d: Domain): string {
    match d
    case DEFAULT => "default"
    case MEMORY => "memory"
    case TIMES => "times"
    case S3 => "s3"
    case DDS => "dds"
    case FILE => "file"
  }

  function GetDirectionString(d: Direction): string {
    match d
    case UP => "up"
    case DOWN => "down"
    case BOTH => "up/down"
  }

  function Prefix(t: Topic): string {
    GetDomainString(t.domain) + "/" + t.project + "/" + t.business + "/" + t.region + "/"
  }

  function Suffix(t: Topic): string {
    "/" + t.module_ + "/" + t.function_ + "/" + GetDirectionString(t.direction)
  }

  function BuildKeyExpr(t: Topic): string {
    Prefix(t) + t.nodeId + Suffix(t)
  }

  /** No field has a slash. */
  predicate SlashFree(t: Topic) {
    && '/' !in t.project && '/' !in t.business && '/' !in t.region
    && '/' !in t.nodeId && '/' !in t.module_ && '/' !in t.function_
  }

  // ----- Keys are different -----

  lemma Cons(p: string, rest: string)
    requires '/' !in p
    ensures Split(p + "/" + rest, '/') == [p] + Split(rest, '/')
  {
    SplitOfCons(p, rest, '/');
  }

  lemma Cons3(a: string, b: string, c: string, rest: string)
    requires '/' !in a && '/' !in b && '/' !in c
    ensures Split(a + "/" + (b + "/" + (c + "/" + rest)), '/') == [a, b, c] + Split(rest, '/')
  {
    Cons(c, rest);
    Cons(b, c + "/" + rest);
    Cons(a, b + "/" + (c + "/" + rest));
    assert [a] + ([b] + ([c] + Split(rest, '/'))) == [a, b, c] + Split(rest, '/');
  }

  lemma Cons7(a: string, b: string, c: string, d: string, e: string, f: string, g: string, rest: string)
    requires '/' !in a && '/' !in b && '/' !in c && '/' !in d && '/' !in e && '/' !in f && '/' !in g
    ensures Split(a + "/" + (b + "/" + (c + "/" + (d + "/" + (e + "/" + (f + "/" + (g + "/" + rest)))))), '/') ==
            [a, b, c, d, e, f, g] + Split(rest, '/')
  {
    Cons(g, rest);
    Cons3(d, e, f, g + "/" + rest);
    Cons3(a, b, c, d + "/" + (e + "/" + (f + "/" + (g + "/" + rest))));
    assert [a, b, c] + ([d, e, f] + ([g] + Split(rest, '/'))) == [a, b, c, d, e, f, g] + Split(rest, '/');
  }

  function DirectionSegments(d: Direction): seq<string> {
    match d
    case UP => ["up"]
    case DOWN => ["down"]
    case BOTH => ["up", "down"]
  }

  /** The segments of the key; both directions together make two of them. */
  function Segments(t: Topic): seq<string> {
    [GetDomainString(t.domain), t.project, t.business, t.region, t.nodeId, t.module_, t.function_] +
    DirectionSegments(t.direction)
  }

  lemma DirectionSplits(d: Direction)
    ensures Split(GetDirectionString(d), '/') == DirectionSegments(d)
  {
    SplitOfOne("up", '/');
    SplitOfOne("down", '/');
    Cons("up", "down");
    assert "up" + "/" + "down" == "up/down";
  }

  lemma DomainStrings(d: Domain)
    ensures '/' !in GetDomainString(d) && '*' !in GetDomainString(d)
  {
  }

  lemma NestPrefix(a: string, b: string, c: string, d: string, rest: string)
    ensures (a + "/" + b + "/" + c + "/" + d + "/") + rest == a + "/" + (b + "/" + (c + "/" + (d + "/" + rest)))
  {
  }

  lemma NestSuffix(a: string, b: string, c: string, d: string)
    ensures a + ("/" + b + "/" + c + "/" + d) == a + "/" + (b + "/" + (c + "/" + d))
  {
  }

  lemma KeyIsNested(t: Topic)
    ensures BuildKeyExpr(t) ==
            GetDomainString(t.domain) + "/" + (t.project + "/" + (t.business + "/" + (t.region + "/" +
            (t.nodeId + "/" + (t.module_ + "/" + (t.function_ + "/" + GetDirectionString(t.direction)))))))
  {
    var domain, direction := GetDomainString(t.domain), GetDirectionString(t.direction);
    NestSuffix(t.nodeId, t.module_, t.function_, direction);
    NestPrefix(domain, t.project, t.business, t.region, t.nodeId + Suffix(t));
    assert BuildKeyExpr(t) == Prefix(t) + (t.nodeId + Suffix(t));
  }

  /** Splitting a key at its slashes gives the segments it was made of. */
  lemma KeySplits(t: Topic)
    requires SlashFree(t)
    ensures Split(BuildKeyExpr(t), '/') == Segments(t)
  {
    KeyIsNested(t);
    DomainStrings(t.domain);
    DirectionSplits(t.direction);
    Cons7(GetDomainString(t.domain), t.project, t.business, t.region, t.nodeId, t.module_, t.function_,
          GetDirectionString(t.direction));
  }

  lemma DomainsDiffer(a: Domain, b: Domain)
    requires GetDomainString(a) == GetDomainString(b)
    ensures a == b
  {
    var s, u := GetDomainString(a), GetDomainString(b);
    assert |s| == |u| && s[0] == u[0];
  }

  lemma SegmentsAreInjective(a: Topic, b: Topic, s: seq<string>, u: seq<string>)
    requires s == Segments(a) && u == Segments(b) && s == u
    ensures a == b
  {
    assert |s| == |u| && s[7] == u[7];
    assert s[0] == u[0] && s[1] == u[1] && s[2] == u[2] && s[3] == u[3] && s[4] == u[4] && s[5] == u[5] && s[6] == u[6];
    DomainsDiffer(a.domain, b.domain);
    assert a.direction == b.direction by {
      assert s[7] == DirectionSegments(a.direction)[0] && u[7] == DirectionSegments(b.direction)[0];
      assert |"up"| != |"down"|;
    }
  }

  /** Topics without slashes in their fields have the same key only if they are the same. */
  lemma KeysAreInjective(a: Topic, b: Topic)
    requires SlashFree(a) && SlashFree(b) && BuildKeyExpr(a) == BuildKeyExpr(b)
    ensures a == b
  {
    KeySplits(a);
    KeySplits(b);
    SegmentsAreInjective(a, b, Segments(a), Segments(b));
  }

  // ----- Reading the names back -----

  function GetDomainEnum(str: string): Domain {
    if str == "memory" then MEMORY
    else if str == "times" then TIMES
    else if str == "s3" then S3
    else if str == "dds" then DDS
    else if str == "file" then FILE
    else DEFAULT
  }

  function GetDirectionEnum(str: string): Direction {
    if str == "up" then UP
    else if str == "down" then DOWN
    else BOTH
  }

  /** Every domain and direction is read back from its name; any other name stands for DEFAULT or BOTH. */
  lemma NamesAreReadBack(d: Domain, r: Direction)
    ensures GetDomainEnum(GetDomainString(d)) == d && GetDirectionEnum(GetDirectionString(r)) == r
    ensures forall s: string :: s !in ["memory", "times", "s3", "dds", "file"] ==> GetDomainEnum(s) == DEFAULT
    ensures forall s: string :: s !in ["up", "down"] ==> GetDirectionEnum(s) == BOTH
    ensures GetDomainString(DEFAULT) == "default" && GetDirectionString(BOTH) == "up/down"
  {
    var s := GetDomainString(d);
    assert |"default"| == 7 && |"memory"| == 6 && |"times"| == 5 && |"s3"| == 2 && |"dds"| == 3 && |"file"| == 4;
    assert |"up/down"| == 7 && |"down"| == 4 && |"up"| == 2;
  }

  /** All fields of a topic can be read from its key. */
  lemma KeyTells(t: Topic)
    requires SlashFree(t)
    ensures var segments := Split(BuildKeyExpr(t), '/');
            && |segments| >= 8
            && GetDomainEnum(segments[0]) == t.domain
            && segments[1..7] == [t.project, t.business, t.region, t.nodeId, t.module_, t.function_]
            && GetDirectionEnum(Join(segments[7..], '/')) == t.direction
  {
    KeySplits(t);
    NamesAreReadBack(t.domain, t.direction);
    var segments := Segments(t);
    assert segments[0] == GetDomainString(t.domain);
    assert segments[7..] == DirectionSegments(t.direction);
    assert ["up", "down"][1..] == ["down"];
    assert "up" + ['/'] + "down" == "up/down";
  }

  // ----- Which topics keep their key to themselves -----

  function FieldSlashes(t: Topic): nat {
    CountChar(t.project, '/') + CountChar(t.business, '/') + CountChar(t.region, '/')
    + CountChar(t.nodeId, '/') + CountChar(t.module_, '/') + CountChar(t.function_, '/')
  }

  lemma SlashesOfDirection(d: Direction)
    ensures CountChar(GetDirectionString(d), '/') == if d == BOTH then 1 else 0
  {
    match d
    case UP => CountWithout("up", '/');
    case DOWN => CountWithout("down", '/');
    case BOTH =>
      CountAppend("up", "/down", '/');
      CountWithout("up", '/');
      CountWithout("down", '/');
      assert "up" + "/down" == "up/down" && "/down"[1..] == "down";
  }

  lemma SlashesOfCons(p: string, rest: string)
    ensures CountChar(p + "/" + rest, '/') == CountChar(p, '/') + 1 + CountChar(rest, '/')
  {
    assert p + "/" + rest == p + ("/" + rest) && ("/" + rest)[1..] == rest;
    CountAppend(p, "/" + rest, '/');
  }

  /** A key has seven slashes of its own, those of its fields, and one more for both directions. */
  lemma SlashesOfKey(t: Topic)
    ensures CountChar(BuildKeyExpr(t), '/') == 7 + FieldSlashes(t) + if t.direction == BOTH then 1 else 0
  {
    KeyIsNested(t);
    DomainStrings(t.domain);
    CountWithout(GetDomainString(t.domain), '/');
    SlashesOfDirection(t.direction);
    var k7 := t.function_ + "/" + GetDirectionString(t.direction);
    SlashesOfCons(t.function_, GetDirectionString(t.direction));
    var k6 := t.module_ + "/" + k7;
    SlashesOfCons(t.module_, k7);
    var k5 := t.nodeId + "/" + k6;
    SlashesOfCons(t.nodeId, k6);
    var k4 := t.region + "/" + k5;
    SlashesOfCons(t.region, k5);
    var k3 := t.business + "/" + k4;
    SlashesOfCons(t.business, k4);
    SlashesOfCons(t.project, t.business + "/" + k4);
    SlashesOfCons(GetDomainString(t.domain), t.project + "/" + k3);
  }

  lemma {:induction false} CountIsZero(s: string, c: char)
    ensures CountChar(s, c) == 0 <==> c !in s
  {
    if s != [] {
      CountIsZero(s[1..], c);
      assert s == [s[0]] + s[1..];
    }
  }

  lemma NoFieldSlashes(t: Topic)
    ensures FieldSlashes(t) == 0 <==> SlashFree(t)
  {
    CountIsZero(t.project, '/');
    CountIsZero(t.business, '/');
    CountIsZero(t.region, '/');
    CountIsZero(t.nodeId, '/');
    CountIsZero(t.module_, '/');
    CountIsZero(t.function_, '/');
  }

  lemma CutAtSlash(s: string) returns (x: string, y: string)
    requires '/' in s
    ensures s == x + "/" + y && x != s && y != s
  {
    var i := Index(s, '/').value;
    x, y := s[..i], s[i + 1..];
  }

  lemma Regroup(x: string, y: string, z: string, rest: string)
    ensures (x + "/" + y) + "/" + (z + "/" + rest) == x + "/" + ((y + "/" + z) + "/" + rest)
  {
  }

  /** A slash inside a field can as well be the one between it and a neighbour. */
  lemma SlashMoves(t: Topic) returns (u: Topic)
    requires !SlashFree(t)
    ensures u != t && BuildKeyExpr(u) == BuildKeyExpr(t)
  {
    KeyIsNested(t);
    var k7 := GetDirectionString(t.direction);
    var k6 := t.function_ + "/" + k7;
    var k5 := t.module_ + "/" + k6;
    var k4 := t.nodeId + "/" + k5;
    var k3 := t.region + "/" + k4;
    var x, y;
    if '/' in t.project {
      x, y := CutAtSlash(t.project);
      u := t.(project := x, business := y + "/" + t.business);
      Regroup(x, y, t.business, k3);
    } else if '/' in t.business {
      x, y := CutAtSlash(t.business);
      u := t.(business := x, region := y + "/" + t.region);
      Regroup(x, y, t.region, k4);
    } else if '/' in t.region {
      x, y := CutAtSlash(t.region);
      u := t.(region := x, nodeId := y + "/" + t.nodeId);
      Regroup(x, y, t.nodeId, k5);
    } else if '/' in t.nodeId {
      x, y := CutAtSlash(t.nodeId);
      u := t.(nodeId := x, module_ := y + "/" + t.module_);
      Regroup(x, y, t.module_, k6);
    } else if '/' in t.module_ {
      x, y := CutAtSlash(t.module_);
      u := t.(module_ := x, function_ := y + "/" + t.function_);
      Regroup(x, y, t.function_, k7);
    } else {
      x, y := CutAtSlash(t.function_);
      u := t.(module_ := t.module_ + "/" + x, function_ := y);
      Regroup(t.module_, x, y, k7);
    }
    KeyIsNested(u);
  }

  /** Both directions print what a function ending in "/up" prints downwards. */
  lemma BothIsAlsoDown(t: Topic)
    requires t.direction == BOTH
    ensures BuildKeyExpr(t.(function_ := t.function_ + "/up", direction := DOWN)) == BuildKeyExpr(t)
  {
    var u := t.(function_ := t.function_ + "/up", direction := DOWN);
    KeyIsNested(t);
    KeyIsNested(u);
    assert (t.function_ + "/up") + "/" + "down" == t.function_ + "/" + "up/down";
  }

  /** A topic shares its key with no other one exactly if its fields have no slash and it has one direction. */
  lemma WhenKeyIsUnique(a: Topic)
    ensures (forall b :: BuildKeyExpr(b) == BuildKeyExpr(a) ==> b == a) <==> SlashFree(a) && a.direction != BOTH
  {
    if !SlashFree(a) {
      var b := SlashMoves(a);
    } else if a.direction == BOTH {
      BothIsAlsoDown(a);
    } else {
      forall b | BuildKeyExpr(b) == BuildKeyExpr(a) ensures b == a {
        SlashesOfKey(a);
        SlashesOfKey(b);
        NoFieldSlashes(a);
        NoFieldSlashes(b);
        KeysAreInjective(a, b);
      }
    }
  }

  // ----- The key of one node, from a template -----

  lemma AtChar(s: string, c: char, i: nat)
    ensures At(s, [c], i) <==> i < |s| && s[i] == c
  {
    if i < |s| {
      assert s[i..i + 1] == [s[i]];
    }
  }

  lemma FirstChar(s: string, c: char, i: nat)
    requires i < |s| && s[i] == c && c !in s[..i]
    ensures Find(s, [c], 0) == Some(i)
  {
    AtChar(s, c, i);
    forall k: nat | k < i ensures !At(s, [c], k) {
      AtChar(s, c, k);
      assert s[k] in s[..i];
    }
  }

  lemma SlashBehind(a: string, q: string, z: string)
    requires '/' !in a && '/' in q
    ensures Index(a + q + z, '/') == Some(|a| + Index(q, '/').value)
  {
    var j := Index(q, '/').value;
    assert (a + q + z)[..|a| + j] == a + q[..j];
    IndexIs(a + q + z, |a| + j, '/');
  }

  /** If exchanging a star and n around q makes no difference, then n is a star. */
  lemma OnlyAStarTwists(n: string, q: string)
    requires '/' !in n && '/' in q && n + q + "*" == "*" + q + n
    ensures n == "*"
  {
    SlashBehind(n, q, "*");
    SlashBehind("*", q, n);
    assert (n + q + "*")[0] == n[0] && ("*" + q + n)[0] == '*';
  }

  lemma Cancel(a: string, x: string, y: string, b: string)
    requires |x| == |y| && a + x + b == a + y + b
    ensures x == y
  {
    assert (a + x + b)[|a|..|a| + |x|] == x;
    assert (a + y + b)[|a|..|a| + |y|] == y;
  }

  lemma FirstStar(p: string) returns (a: string, q: string)
    requires '*' in p && p[|p| - 1] == '/'
    ensures p == a + "*" + q && '*' !in a && '/' in q
  {
    var i := Index(p, '*').value;
    a, q := p[..i], p[i + 1..];
    assert q[|q| - 1] == '/';
  }

  lemma ReplaceStar(a: string, b: string, n: string)
    requires '*' !in a
    ensures ReplaceFirst(a + "*" + b, "*", n) == a + n + b
  {
    var key := a + "*" + b;
    assert key[..|a|] == a && key[|a| + 1..] == b;
    FirstChar(key, '*', |a|);
  }

  /** A star before the one of the node: replacing the first star spoils the key. */
  lemma EarlierStar(p: string, n: string, suffix: string)
    requires '*' in p && p[|p| - 1] == '/' && '/' !in n
    requires ReplaceFirst(p + "*" + suffix, "*", n) == p + n + suffix
    ensures n == "*"
  {
    var a, q := FirstStar(p);
    assert p + "*" + suffix == a + "*" + (q + "*" + suffix);
    ReplaceStar(a, q + "*" + suffix, n);
    assert a + n + (q + "*" + suffix) == a + (n + q + "*") + suffix;
    assert p + n + suffix == a + ("*" + q + n) + suffix;
    Cancel(a, n + q + "*", "*" + q + n, suffix);
    OnlyAStarTwists(n, q);
  }

  lemma StarsOfPrefix(t: Topic)
    ensures '*' in Prefix(t) <==> '*' in t.project || '*' in t.business || '*' in t.region
    ensures Prefix(t)[|Prefix(t)| - 1] == '/'
  {
    DomainStrings(t.domain);
  }

  /**
   Replacing the first star of a template by a node id gives the key of that node exactly if no
   field before the node id has a star.
   */
  lemma TemplateGivesNodeKey(t: Topic, n: string)
    requires t.nodeId == "*" && '/' !in n && n != "*"
    ensures ReplaceFirst(BuildKeyExpr(t), "*", n) == BuildKeyExpr(t.(nodeId := n)) <==>
            '*' !in t.project && '*' !in t.business && '*' !in t.region
  {
    var p, suffix := Prefix(t), Suffix(t);
    StarsOfPrefix(t);
    assert BuildKeyExpr(t) == p + "*" + suffix && BuildKeyExpr(t.(nodeId := n)) == p + n + suffix;
    if '*' in p {
      if ReplaceFirst(p + "*" + suffix, "*", n) == p + n + suffix {
        EarlierStar(p, n, suffix);
      }
    } else {
      ReplaceStar(p, suffix, n);
    }
  }

  /** Node keys made from templates without other stars are shared only by the same template and node. */
  lemma NodesNeverShareAChannel(t: Topic, u: Topic, n: string, m: string)
    requires t.nodeId == u.nodeId == "*" && SlashFree(t) && SlashFree(u)
    requires '/' !in n && '/' !in m && n != "*" && m != "*"
    requires '*' !in t.project && '*' !in t.business && '*' !in t.region
    requires '*' !in u.project && '*' !in u.business && '*' !in u.region
    requires t != u || n != m
    ensures ReplaceFirst(BuildKeyExpr(t), "*", n) != ReplaceFirst(BuildKeyExpr(u), "*", m)
  {
    TemplateGivesNodeKey(t, n);
    TemplateGivesNodeKey(u, m);
    if BuildKeyExpr(t.(nodeId := n)) == BuildKeyExpr(u.(nodeId := m)) {
      KeysAreInjective(t.(nodeId := n), u.(nodeId := m));
    }
  }
}
