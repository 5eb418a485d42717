/** Trimming and searching text. */
module Text {
  import opened Wrappers

  /** White space as the source's `trim` sees it. */
  predicate IsSpace(c: char) {
    || c == ' ' || ('\U{0009}' <= c <= '\U{000D}') || c == '\U{00A0}' || c == '\U{1680}'
       || ('\U{2000}' <= c <= '\U{200A}')
    || c == '\U{2028}' || c == '\U{2029}' || c == '\U{202F}' || c == '\U{205F}' || c == '\U{3000}' || c == '\U{FEFF}'
  }

  function TrimStart(s: string): (t: string)
    ensures |t| <= |s|
  {
    if s != "" && IsSpace(s[0]) then TrimStart(s[1..]) else s
  }

  function TrimEnd(s: string): (t: string)
    ensures |t| <= |s|
  {
    if s != "" && IsSpace(s[|s| - 1]) then TrimEnd(s[..|s| - 1]) else s
  }

  function Trim(s: string): (t: string)
    ensures |t| <= |s|
  {
    TrimEnd(TrimStart(s))
  }

  /** Text that trimming leaves alone and that is not empty. */
  predicate Tight(s: string) {
    s != "" && !IsSpace(s[0]) && !IsSpace(s[|s| - 1])
  }

  lemma TightTrims(s: string)
    requires Tight(s)
    ensures Trim(s) == s
  {
  }

  function Kept(part: string): seq<string> {
    var trimmed := Trim(part);
    if trimmed == "" then [] else [trimmed]
  }

  /** A part is kept without the white space around it, unless it is nothing but white space. */
  lemma KeptTells(part: string)
    ensures AllSpace(part) <==> Kept(part) == []
    ensures Kept(part) != [] ==>
      |Kept(part)| == 1 && Tight(Kept(part)[0])
      && exists a, b :: AllSpace(a) && AllSpace(b) && part == a + Kept(part)[0] + b
  {
    hide Trim, IsSpace;
    var a, b := TrimTakes(part);
    if Trim(part) == "" {
      assert part == a + b;
    }
    if AllSpace(part) {
      TrimPadded(part, "", "");
      assert part + "" + "" == part;
    }
  }

  predicate StartsWith(s: string, prefix: string) {
    |prefix| <= |s| && s[..|prefix|] == prefix
  }

  function IndexOf(s: string, c: char): (i: Option<nat>)
    ensures i.Some? ==> i.value < |s| && s[i.value] == c && forall j :: 0 <= j < i.value ==> s[j] != c
    ensures i.None? ==> c !in s
  {
    if s == "" then None
    else if s[0] == c then Some(0)
    else
      match IndexOf(s[1..], c)
      case None => None
      case Some(i) => Some(i + 1)
  }

  predicate AllSpace(s: string) {
    forall i :: 0 <= i < |s| ==> IsSpace(s[i])
  }

  lemma {:induction false} TrimStartPadded(a: string, t: string)
    requires AllSpace(a)
    ensures TrimStart(a + t) == TrimStart(t)
  {
    if a == "" {
      assert a + t == t;
    } else {
      assert (a + t)[1..] == a[1..] + t;
      TrimStartPadded(a[1..], t);
    }
  }

  lemma {:induction false} TrimEndPadded(t: string, b: string)
    requires AllSpace(b)
    ensures TrimEnd(t + b) == TrimEnd(t)
  {
    if b == "" {
      assert t + b == t;
    } else {
      assert (t + b)[..|t + b| - 1] == t + b[..|b| - 1];
      TrimEndPadded(t, b[..|b| - 1]);
    }
  }

  /** What trimming takes away at the front, and that what it leaves does not start with white space. */
  lemma {:induction false} TrimStartTakes(s: string) returns (a: string)
    ensures s == a + TrimStart(s) && AllSpace(a)
    ensures TrimStart(s) != "" ==> !IsSpace(TrimStart(s)[0])
  {
    a := "";
    if s != "" && IsSpace(s[0]) {
      a := TrimStartTakes(s[1..]);
      a := [s[0]] + a;
    }
  }

  lemma {:induction false} TrimEndTakes(s: string) returns (b: string)
    ensures s == TrimEnd(s) + b && AllSpace(b)
    ensures TrimEnd(s) != "" ==> !IsSpace(TrimEnd(s)[|TrimEnd(s)| - 1])
  {
    b := "";
    if s != "" && IsSpace(s[|s| - 1]) {
      b := TrimEndTakes(s[..|s| - 1]);
      b := b + [s[|s| - 1]];
    }
  }

  /** Trimming takes white space off both ends and leaves nothing or tight text. */
  lemma TrimTakes(s: string) returns (a: string, b: string)
    ensures s == a + Trim(s) + b && AllSpace(a) && AllSpace(b)
    ensures Trim(s) == "" || Tight(Trim(s))
  {
    hide IsSpace;
    a := TrimStartTakes(s);
    b := TrimEndTakes(TrimStart(s));
    var t := Trim(s);
    if t != "" {
      assert TrimStart(s)[0] == t[0];
    }
  }

  lemma TrimPadded(a: string, t: string, b: string)
    requires AllSpace(a) && AllSpace(b) && (t == "" || Tight(t))
    ensures Trim(a + t + b) == t
  {
    hide IsSpace;
    assert a + t + b == a + (t + b);
    TrimStartPadded(a, t + b);
    if t == "" {
      assert t + b == b;
      assert b + "" == b;
      TrimStartPadded(b, "");
    } else {
      assert TrimStart(t + b) == t + b;
      TrimEndPadded(t, b);
    }
  }

  /** White space around text does not show after trimming. */
  lemma TrimIgnores(a: string, s: string, b: string)
    requires AllSpace(a) && AllSpace(b)
    ensures Trim(a + s + b) == Trim(s)
  {
    hide Trim, Tight, IsSpace;
    var c, d := TrimTakes(s);
    assert a + s + b == (a + c) + Trim(s) + (d + b);
    TrimPadded(a + c, Trim(s), d + b);
  }

  lemma TrimTwice(s: string)
    ensures Trim(Trim(s)) == Trim(s)
  {
    var a, b := TrimTakes(s);
    TrimPadded("", Trim(s), "");
    assert "" + Trim(s) + "" == Trim(s);
  }

  lemma TrimMembers(s: string, c: char)
    requires c !in s
    ensures c !in Trim(s)
  {
    hide Trim;
    var a, b := TrimTakes(s);
    assert forall i :: 0 <= i < |Trim(s)| ==> Trim(s)[i] == s[|a| + i];
  }

  function Join(pieces: seq<string>, mark: char): string {
    if pieces == [] then ""
    else if |pieces| == 1 then pieces[0]
    else pieces[0] + [mark] + Join(pieces[1..], mark)
  }

  lemma FirstIndex(a: string, c: char, b: string)
    requires c !in a
    ensures IndexOf(a + [c] + b, c) == Some(|a|)
  {
    var s := a + [c] + b;
    assert s[|a|] == c;
    var i := IndexOf(s, c);
    assert forall j :: 0 <= j < |a| ==> s[j] == a[j] && a[j] in a;
  }
}
