/** The host and path groups an exchange belongs to, outermost first, and why their ids never collide. */
module StructurePath {
  import opened Wrappers
  import opened CaptureModel
  import opened Decimals
  import opened Text

  datatype Segment = Segment(id: string, caption: string)

  /** URI component coding; decoding fails on a malformed escape. */
  datatype UriCodec = UriCodec(escape: string -> string, decode: string -> Option<string>)

  /** Escaping is injective and leaves neither of the two characters that ids are glued with. */
  ghost predicate EscapeLaw(codec: UriCodec) {
    && (forall a, b :: codec.escape(a) == codec.escape(b) ==> a == b)
    && (forall a :: '/' !in codec.escape(a) && ':' !in codec.escape(a))
  }

  /** The non-empty stretches of text between slashes. */
  function PathSegments(path: string): seq<string> {
    SegmentsAfter("", path)
  }

  function SegmentsAfter(open': string, rest: string): seq<string>
    decreases |rest|
  {
    if rest == "" then (if open' == "" then [] else [open'])
    else if rest[0] == '/' then (if open' == "" then [] else [open']) + SegmentsAfter("", rest[1..])
    else SegmentsAfter(open' + [rest[0]], rest[1..])
  }

  function Scheme(summary: HttpExchangeSummary): string {
    summary.scheme.UnwrapOr("unknown")
  }

  function PortText(port: Option<nat>): string {
    if port.None? then "" else Decimal(port.value)
  }

  function RootSegment(codec: UriCodec, scheme: string, host: string, port: Option<nat>): Segment {
    Segment("host:" + codec.escape(scheme) + ":" + codec.escape(host) + ":" + PortText(port),
            scheme + "://" + host + (if port.None? then "" else ":" + PortText(port)))
  }

  function ChildSegment(codec: UriCodec, parent: string, raw: string): Segment {
    Segment(parent + "/path:" + codec.escape(raw), codec.decode(raw).UnwrapOr(raw))
  }

  function Descend(codec: UriCodec, root: Segment, names: seq<string>): (path: seq<Segment>)
    ensures |path| == |names| + 1
  {
    if names == [] then [root]
    else
      var parent := Descend(codec, root, names[..|names| - 1]);
      parent + [ChildSegment(codec, parent[|names| - 1].id, names[|names| - 1])]
  }

  function DropLast(names: seq<string>): seq<string> {
    if names == [] then [] else names[..|names| - 1]
  }

  const INVALID := Segment("invalid-url", "<invalid-url>")

  function PathOf(codec: UriCodec, summary: HttpExchangeSummary): (path: seq<Segment>)
    ensures path != []
  {
    if summary.host.None? || summary.host.value == "" || summary.path.None? then [INVALID]
    else Descend(codec, RootSegment(codec, Scheme(summary), summary.host.value, summary.port),
                 DropLast(PathSegments(summary.path.value)))
  }

  /** Wherever two paths share an id they share everything up to it, so an id stands for one place. */
  ghost predicate Branching(p: seq<Segment>, q: seq<Segment>) {
    forall i, j :: 0 <= i < |p| && 0 <= j < |q| && p[i].id == q[j].id ==> i == j && p[..i + 1] == q[..j + 1]
  }

  // ---- why ids never collide

  /** Text up to the first occurrence of a mark is determined by the whole. */
  lemma SplitAtMark(a: string, x: string, b: string, y: string, mark: char)
    requires mark !in a && mark !in b && a + [mark] + x == b + [mark] + y
    ensures a == b && x == y
  {
    var s, t := a + [mark] + x, b + [mark] + y;
    assert s[|a|] == mark && forall i :: 0 <= i < |a| ==> s[i] == a[i] && a[i] != mark;
    assert t[|b|] == mark && forall i :: 0 <= i < |b| ==> t[i] == b[i] && b[i] != mark;
    assert |a| == |b|;
    assert a == s[..|a|] && b == t[..|b|];
    assert x == s[|a| + 1..] && y == t[|b| + 1..];
  }

  /** Text after the last occurrence of a mark is determined by the whole. */
  lemma SplitAtLastMark(a: string, x: string, b: string, y: string, mark: char)
    requires mark !in x && mark !in y && a + [mark] + x == b + [mark] + y
    ensures a == b && x == y
  {
    var s, t := a + [mark] + x, b + [mark] + y;
    assert s[|a|] == mark && forall i :: |a| < i < |s| ==> s[i] == x[i - |a| - 1] && s[i] != mark;
    assert t[|b|] == mark && forall i :: |b| < i < |t| ==> t[i] == y[i - |b| - 1] && t[i] != mark;
    assert |a| == |b|;
    assert a == s[..|a|] && b == t[..|b|];
    assert x == s[|a| + 1..] && y == t[|b| + 1..];
  }

  lemma GluedInjective(a: string, x: string, u: string, b: string, y: string, v: string)
    requires ':' !in a && ':' !in b && ':' !in x && ':' !in y
    requires "host:" + a + ":" + x + ":" + u == "host:" + b + ":" + y + ":" + v
    ensures a == b && x == y && u == v
  {
    var left, right := "host:" + a + ":" + x + ":" + u, "host:" + b + ":" + y + ":" + v;
    assert left[5..] == a + [':'] + (x + [':'] + u);
    assert right[5..] == b + [':'] + (y + [':'] + v);
    SplitAtMark(a, x + [':'] + u, b, y + [':'] + v, ':');
    SplitAtMark(x, u, y, v, ':');
  }

  lemma PortInjective(p: Option<nat>, q: Option<nat>)
    requires PortText(p) == PortText(q)
    ensures p == q
  {
    hide Decimal;
    if p.Some? {
      DecimalDigits(p.value);
    }
    if q.Some? {
      DecimalDigits(q.value);
    }
    if p.Some? && q.Some? {
      DecimalInjective(p.value, q.value);
    }
  }

  lemma RootInjective(codec: UriCodec, s0: string, h0: string, p0: Option<nat>, s1: string, h1: string, p1: Option<nat>)
    requires EscapeLaw(codec) && RootSegment(codec, s0, h0, p0).id == RootSegment(codec, s1, h1, p1).id
    ensures s0 == s1 && h0 == h1 && p0 == p1
  {
    hide PortText;
    GluedInjective(codec.escape(s0), codec.escape(h0), PortText(p0), codec.escape(s1), codec.escape(h1), PortText(p1));
    PortInjective(p0, p1);
  }

  lemma RootHasNoSlash(codec: UriCodec, scheme: string, host: string, port: Option<nat>)
    requires EscapeLaw(codec)
    ensures var id := RootSegment(codec, scheme, host, port).id; '/' !in id && id != "" && id[0] == 'h'
  {
    if port.Some? {
      DecimalDigits(port.value);
    }
    assert forall i :: 0 <= i < |PortText(port)| ==> PortText(port)[i] in "0123456789";
  }

  lemma {:induction false} DescendPrefix(codec: UriCodec, root: Segment, names: seq<string>, n: nat)
    requires n <= |names|
    ensures Descend(codec, root, names)[..n + 1] == Descend(codec, root, names[..n])
  {
    if n == |names| {
      assert names[..n] == names;
    } else {
      var front := names[..|names| - 1];
      DescendPrefix(codec, root, front, n);
      assert front[..n] == names[..n];
      assert Descend(codec, root, names)[..|names|] == Descend(codec, root, front);
      assert Descend(codec, root, names)[..n + 1] == Descend(codec, root, front)[..n + 1];
    }
  }

  /** The id at the end of a descent determines the root id and every name on the way. */
  lemma {:induction false} DescentInjective(codec: UriCodec, r0: Segment, n0: seq<string>, r1: Segment, n1: seq<string>)
    requires EscapeLaw(codec) && '/' !in r0.id && '/' !in r1.id
    requires Descend(codec, r0, n0)[|n0|].id == Descend(codec, r1, n1)[|n1|].id
    ensures r0.id == r1.id && n0 == n1
    decreases |n0|
  {
    var k0, k1 := |n0| - 1, |n1| - 1;
    if n0 != [] && n1 != [] {
      var a, b := Descend(codec, r0, n0[..k0])[k0].id, Descend(codec, r1, n1[..k1])[k1].id;
      var x, y := codec.escape(n0[k0]), codec.escape(n1[k1]);
      assert a + "/path:" + x == a + "/" + ("path:" + x);
      assert b + "/path:" + y == b + "/" + ("path:" + y);
      SplitAtLastMark(a, "path:" + x, b, "path:" + y, '/');
      assert ("path:" + x)[5..] == x && ("path:" + y)[5..] == y;
      DescentInjective(codec, r0, n0[..k0], r1, n1[..k1]);
      assert n0 == n0[..k0] + [n0[k0]] && n1 == n1[..k1] + [n1[k1]];
    } else if n0 != [] {
      SlashInside(Descend(codec, r0, n0[..k0])[k0].id, codec.escape(n0[k0]));
    } else if n1 != [] {
      SlashInside(Descend(codec, r1, n1[..k1])[k1].id, codec.escape(n1[k1]));
    }
  }

  lemma SlashInside(a: string, x: string)
    ensures '/' in a + "/path:" + x
  {
    assert (a + "/path:" + x)[|a|] == '/';
  }

  lemma DescendStart(codec: UriCodec, root: Segment, names: seq<string>)
    ensures Descend(codec, root, names)[0] == root
  {
    DescendPrefix(codec, root, names, 0);
    assert Descend(codec, root, names)[..1] == [root];
  }

  lemma DescentsBranch(codec: UriCodec, r0: Segment, n0: seq<string>, r1: Segment, n1: seq<string>)
    requires EscapeLaw(codec) && '/' !in r0.id && '/' !in r1.id && (r0.id == r1.id ==> r0 == r1)
    ensures Branching(Descend(codec, r0, n0), Descend(codec, r1, n1))
  {
    hide Descend;
    var p, q := Descend(codec, r0, n0), Descend(codec, r1, n1);
    forall i, j | 0 <= i < |p| && 0 <= j < |q| && p[i].id == q[j].id
      ensures i == j && p[..i + 1] == q[..j + 1]
    {
      DescendPrefix(codec, r0, n0, i);
      DescendPrefix(codec, r1, n1, j);
      assert p[..i + 1][i] == p[i] && q[..j + 1][j] == q[j];
      DescentInjective(codec, r0, n0[..i], r1, n1[..j]);
    }
  }

  /** Any two exchanges' paths branch: no group id stands for two places in the tree. */
  lemma PathsBranch(codec: UriCodec, a: HttpExchangeSummary, b: HttpExchangeSummary)
    requires EscapeLaw(codec)
    ensures Branching(PathOf(codec, a), PathOf(codec, b))
  {
    hide EscapeLaw, RootSegment, Branching, PathSegments;
    var root0, names0 := PathRoot(codec, a), PathNames(a);
    var root1, names1 := PathRoot(codec, b), PathNames(b);
    RootsDiffer(codec, a, b);
    DescentsBranch(codec, root0, names0, root1, names1);
  }

  function PathRoot(codec: UriCodec, summary: HttpExchangeSummary): Segment {
    if summary.host.None? || summary.host.value == "" || summary.path.None? then INVALID
    else RootSegment(codec, Scheme(summary), summary.host.value, summary.port)
  }

  function PathNames(summary: HttpExchangeSummary): seq<string> {
    if summary.host.None? || summary.host.value == "" || summary.path.None? then []
      else DropLast(PathSegments(summary.path.value))
  }

  lemma RootsDiffer(codec: UriCodec, a: HttpExchangeSummary, b: HttpExchangeSummary)
    requires EscapeLaw(codec)
    ensures var r0, r1 := PathRoot(codec, a), PathRoot(codec, b);
      '/' !in r0.id && '/' !in r1.id && (r0.id == r1.id ==> r0 == r1)
  {
    hide EscapeLaw, RootSegment;
    var r0, r1 := PathRoot(codec, a), PathRoot(codec, b);
    if r0 != INVALID {
      RootHasNoSlash(codec, Scheme(a), a.host.value, a.port);
    }
    if r1 != INVALID {
      RootHasNoSlash(codec, Scheme(b), b.host.value, b.port);
    }
    if r0 != INVALID && r1 != INVALID && r0.id == r1.id {
      RootInjective(codec, Scheme(a), a.host.value, a.port, Scheme(b), b.host.value, b.port);
    }
  }

  // ---- which groups a path names

  lemma {:induction false} SegmentsRead(open': string, name: string, rest: string)
    requires '/' !in name
    ensures SegmentsAfter(open', name + rest) == SegmentsAfter(open' + name, rest)
    decreases |name|
  {
    if name == "" {
      assert name + rest == rest && open' + name == open';
    } else {
      assert (name + rest)[1..] == name[1..] + rest && open' + name == open' + [name[0]] + name[1..];
      SegmentsRead(open' + [name[0]], name[1..], rest);
    }
  }

  lemma {:induction false} JoinedSegments(names: seq<string>)
    requires forall i :: 0 <= i < |names| ==> names[i] != "" && '/' !in names[i]
    ensures PathSegments(Join(names, '/')) == names
  {
    if |names| == 1 {
      assert names[0] + "" == names[0] && "" + names[0] == names[0];
      SegmentsRead("", names[0], "");
    } else if |names| > 1 {
      var rest := Join(names[1..], '/');
      assert Join(names, '/') == names[0] + (['/'] + rest) && "" + names[0] == names[0];
      SegmentsRead("", names[0], ['/'] + rest);
      assert (['/'] + rest)[1..] == rest;
      JoinedSegments(names[1..]);
    }
  }

  lemma {:induction false} DescendCaptions(codec: UriCodec, root: Segment, names: seq<string>, i: nat)
    requires 0 < i <= |names|
    ensures Descend(codec, root, names)[i].caption == codec.decode(names[i - 1]).UnwrapOr(names[i - 1])
  {
    if i < |names| {
      DescendCaptions(codec, root, names[..|names| - 1], i);
    }
  }

  /** A URL path names its host and then, in order, every segment but the last, decoded. */
  lemma PathNamesGroups(codec: UriCodec, summary: HttpExchangeSummary, names: seq<string>)
    requires summary.host.UnwrapOr("") != "" && names != [] && summary.path == Some("/" + Join(names, '/'))
    requires forall i :: 0 <= i < |names| ==> names[i] != "" && '/' !in names[i]
    ensures var path := PathOf(codec, summary);
      && |path| == |names|
      && path[0] == RootSegment(codec, Scheme(summary), summary.host.value, summary.port)
      && forall i :: 0 < i < |names| ==> path[i].caption == codec.decode(names[i - 1]).UnwrapOr(names[i - 1])
  {
    hide RootSegment, Join, Descend;
    var whole := "/" + Join(names, '/');
    assert whole[1..] == Join(names, '/');
    JoinedSegments(names);
    assert PathSegments(whole) == names by { assert PathSegments(whole) == [] + PathSegments(whole[1..]); }
    var root := RootSegment(codec, Scheme(summary), summary.host.value, summary.port);
    var groups := names[..|names| - 1];
    assert PathOf(codec, summary) == Descend(codec, root, groups);
    DescendStart(codec, root, groups);
    forall i | 0 < i < |names|
      ensures Descend(codec, root, groups)[i].caption == codec.decode(names[i - 1]).UnwrapOr(names[i - 1]) {
      DescendCaptions(codec, root, groups, i);
    }
  }

  /**
   Reading a path up to a slash and on from it are independent: each slash ends one stretch, empty ones do
   not count.
   */
  lemma {:induction false} SegmentsJoin(open': string, a: string, b: string)
    ensures SegmentsAfter(open', a + "/" + b) == SegmentsAfter(open', a) + PathSegments(b)
    decreases |a|
  {
    if a == "" {
      assert a + "/" + b == "/" + b && ("/" + b)[1..] == b;
    } else {
      assert (a + "/" + b)[0] == a[0] && (a + "/" + b)[1..] == a[1..] + "/" + b;
      if a[0] == '/' {
        SegmentsJoin("", a[1..], b);
        var head := if open' == "" then [] else [open'];
        assert head + (SegmentsAfter("", a[1..]) + PathSegments(b)) == head + SegmentsAfter("", a[1..])
          + PathSegments(b);
      } else {
        SegmentsJoin(open' + [a[0]], a[1..], b);
      }
    }
  }

  /** Text without a slash is one segment, or none when it is empty; slashes only separate. */
  lemma SegmentsOf(a: string, b: string)
    ensures PathSegments(a + "/" + b) == PathSegments(a) + PathSegments(b)
    ensures '/' !in a ==> PathSegments(a) == if a == "" then [] else [a]
  {
    SegmentsJoin("", a, b);
    if '/' !in a {
      SegmentsRead("", a, "");
      assert a + "" == a && "" + a == a;
    }
  }

  /** An exchange without a host or a path goes to the group of invalid addresses; any other under its host. */
  lemma RootTells(codec: UriCodec, summary: HttpExchangeSummary)
    ensures var path := PathOf(codec, summary);
      if summary.host.UnwrapOr("") == "" || summary.path == None then
        path == [Segment("invalid-url", "<invalid-url>")]
      else
        var scheme, host := summary.scheme.UnwrapOr("unknown"), summary.host.value;
        && path[0].caption == (match summary.port
                               case None => scheme + "://" + host
                               case Some(port) => scheme + "://" + host + ":" + Decimal(port))
        && |path| == (if PathSegments(summary.path.value) == [] then 1 else |PathSegments(summary.path.value)|)
        && forall i :: 0 < i < |path| ==>
             var name := PathSegments(summary.path.value)[i - 1];
             path[i].caption == codec.decode(name).UnwrapOr(name)
  {
    hide PathSegments, Decimal;
    if !(summary.host.UnwrapOr("") == "" || summary.path == None) {
      var names := DropLast(PathSegments(summary.path.value));
      var root := RootSegment(codec, Scheme(summary), summary.host.value, summary.port);
      DescendStart(codec, root, names);
      var scheme, host := Scheme(summary), summary.host.value;
      if summary.port.Some? {
        assert scheme + "://" + host + (":" + Decimal(summary.port.value)) == scheme + "://" + host + ":"
          + Decimal(summary.port.value);
      } else {
        assert scheme + "://" + host + "" == scheme + "://" + host;
      }
      forall i | 0 < i < |PathOf(codec, summary)|
        ensures PathOf(codec, summary)[i].caption == codec.decode(names[i - 1]).UnwrapOr(names[i - 1])
      {
        DescendCaptions(codec, root, names, i);
      }
    }
  }
}
