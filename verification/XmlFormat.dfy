/** Presenting XML: cutting text into markup and what lies between, and laying it out line by line. */
module XmlFormat {
  import opened Wrappers
  import opened Text

  // ---- where a piece of markup ends

  predicate OccursAt(s: string, ending: string, i: nat) {
    i + |ending| <= |s| && s[i..i + |ending|] == ending
  }

  /** The length of the text up to and including the first `ending` at or after `from`. */
  function FindEnd(s: string, ending: string, from: nat): (n: Option<nat>)
    ensures n.Some? ==> from + |ending| <= n.value && OccursAt(s, ending, n.value - |ending|)
    ensures forall i: nat :: from <= i && OccursAt(s, ending, i) ==> n.Some? && n.value <= i + |ending|
    decreases |s| - from
  {
    if from + |ending| > |s| then None
    else if s[from..from + |ending|] == ending then Some(from + |ending|)
    else FindEnd(s, ending, from + 1)
  }

  /** The length of a tag from position `i` on: up to the first `>` outside quotes. */
  function TagEnd(s: string, i: nat, quote: Option<char>): (n: Option<nat>)
    requires i <= |s|
    ensures n.Some? ==> i < n.value <= |s| && s[n.value - 1] == '>'
    decreases |s| - i
  {
    if i == |s| then None
    else if quote.Some? then TagEnd(s, i + 1, if s[i] == quote.value then None else quote)
    else if s[i] == '"' || s[i] == '\'' then TagEnd(s, i + 1, Some(s[i]))
    else if s[i] == '>' then Some(i + 1)
    else TagEnd(s, i + 1, None)
  }

  const COMMENT := "<!--"
  const CDATA := "<![CDATA["
  const INSTRUCTION := "<?"

  /** The length of the markup that `s` starts with, if it is complete. */
  function MarkupLength(s: string): (n: Option<nat>)
    requires s != "" && s[0] == '<'
    ensures n.Some? ==> 1 < n.value <= |s|
  {
    if StartsWith(s, COMMENT) then FindEnd(s, "-->", 4)
    else if StartsWith(s, CDATA) then FindEnd(s, "]]>", 9)
    else if StartsWith(s, INSTRUCTION) then FindEnd(s, "?>", 2)
    else TagEnd(s, 1, None)
  }

  method MarkupEnd(value: string, start: nat) returns (end: int)
    requires start < |value| && value[start] == '<'
    ensures match MarkupLength(value[start..])
            case Some(n) => end == start + n - 1
            case None => end == -1
  {
    var rest := value[start..];
    if StartsWith(rest, COMMENT) {
      end := EndingIndex(value, "-->", start, 4);
      return;
    }
    if StartsWith(rest, CDATA) {
      end := EndingIndex(value, "]]>", start, 9);
      return;
    }
    if StartsWith(rest, INSTRUCTION) {
      end := EndingIndex(value, "?>", start, 2);
      return;
    }
    var quote: Option<char> := None;
    for index := start + 1 to |value|
      invariant MarkupLength(rest) == TagEnd(rest, index - start, quote)
    {
      var character := value[index];
      assert rest[index - start] == character;
      if quote.Some? {
        if character == quote.value {
          quote := None;
        }
        continue;
      }
      if character == '"' || character == '\'' {
        quote := Some(character);
      } else if character == '>' {
        return index;
      }
    }
    end := -1;
  }

  /** The index of the last character of the first `ending` from `skip` after `start` on, or -1. */
  function EndingIndex(value: string, ending: string, start: nat, skip: nat): int
    requires start < |value|
  {
    match FindEnd(value[start..], ending, skip)
    case None => -1
    case Some(n) => start + n - 1
  }

  lemma SliceShift(value: string, start: nat, i: nat, n: nat)
    requires start + i + n <= |value|
    ensures value[start..][i..i + n] == value[start + i..start + i + n]
    ensures value[start..][i + n..] == value[start + i + n..]
  {
  }

  // ---- tokens

  predicate IsMarkup(token: string) {
    token != "" && token[0] == '<'
  }

  function TextLength(s: string): (n: nat)
    ensures n <= |s| && (forall i :: 0 <= i < n ==> s[i] != '<') && (n < |s| ==> s[n] == '<')
  {
    IndexOf(s, '<').UnwrapOr(|s|)
  }

  function Tokens(s: string): Option<seq<string>>
    decreases |s|
  {
    if s == "" then Some([])
    else
      var n := if s[0] == '<' then MarkupLength(s) else Some(TextLength(s));
      if n.None? then None
      else
        Prepend([s[..n.value]], Tokens(s[n.value..]))
  }

  function Prepend(front: seq<string>, rest: Option<seq<string>>): Option<seq<string>> {
    if rest.None? then None else Some(front + rest.value)
  }

  lemma PrependTwice(a: seq<string>, b: seq<string>, rest: Option<seq<string>>)
    ensures Prepend(a, Prepend(b, rest)) == Prepend(a + b, rest)
  {
    if rest.Some? {
      assert a + (b + rest.value) == a + b + rest.value;
    }
  }

  lemma PrependNothing(rest: Option<seq<string>>)
    ensures Prepend([], rest) == rest
  {
    if rest.Some? {
      assert [] + rest.value == rest.value;
    }
  }

  method Tokenize(value: string) returns (tokens: Option<seq<string>>)
    ensures tokens == Tokens(value)
  {
    hide MarkupLength, TextLength, Tokens, Prepend;
    var found: seq<string>, index := [], 0;
    assert value[0..] == value;
    PrependNothing(Tokens(value));
    while index < |value|
      invariant 0 <= index <= |value|
      invariant Tokens(value) == Prepend(found, Tokens(value[index..]))
    {
      var rest := value[index..];
      if value[index] != '<' {
        var n := TextLength(rest);
        NextToken(value, index, found, n);
        found, index := found + [value[index..index + n]], index + n;
        continue;
      }
      var end := MarkupEnd(value, index);
      if end == -1 {
        NoToken(rest, found);
        return None;
      }
      NextToken(value, index, found, end + 1 - index);
      found, index := found + [value[index..end + 1]], end + 1;
    }
    assert value[index..] == "";
    AllTokens(found);
    tokens := Some(found);
  }

  lemma NoToken(rest: string, found: seq<string>)
    requires IsMarkup(rest) && MarkupLength(rest).None?
    ensures Prepend(found, Tokens(rest)) == None
  {
  }

  lemma AllTokens(found: seq<string>)
    ensures Prepend(found, Tokens("")) == Some(found)
  {
    assert found + [] == found;
  }

  lemma NextToken(value: string, index: nat, found: seq<string>, n: nat)
    requires index < |value| && index + n <= |value|
    requires var rest := value[index..];
      (if rest[0] == '<' then MarkupLength(rest) else Some(TextLength(rest))) == Some(n)
    ensures n > 0
    ensures Prepend(found, Tokens(value[index..]))
      == Prepend(found + [value[index..index + n]], Tokens(value[index + n..]))
  {
    hide MarkupLength, TextLength, Prepend;
    var rest := value[index..];
    SliceShift(value, index, 0, n);
    assert n > 0;
    assert rest[..n] == rest[0..n];
    PrependTwice(found, [rest[..n]], Tokens(rest[n..]));
  }

  function Concat(tokens: seq<string>): string {
    if tokens == [] then "" else tokens[0] + Concat(tokens[1..])
  }

  /** Tokenizing loses nothing: the tokens, put back together, are the text. */
  lemma {:induction false} TokensAreLossless(s: string)
    requires Tokens(s).Some?
    ensures Concat(Tokens(s).value) == s
    decreases |s|
  {
    hide MarkupLength, TextLength;
    if s != "" {
      var n := if s[0] == '<' then MarkupLength(s) else Some(TextLength(s));
      TokensAreLossless(s[n.value..]);
      var token, rest := s[..n.value], Tokens(s[n.value..]).value;
      assert ([token] + rest)[1..] == rest;
      assert s == token + s[n.value..];
    }
  }

  // ---- layout

  function Indent(depth: nat): string {
    if depth == 0 then "" else "  " + Indent(depth - 1)
  }

  predicate EndsSelfClosing(token: string) {
    token != "" && token[|token| - 1] == '>' &&
    var before := TrimEnd(token[..|token| - 1]);
    before != "" && before[|before| - 1] == '/'
  }

  predicate IsDeclaration(token: string) {
    StartsWith(token, "<?") || StartsWith(token, "<!")
  }

  predicate IsClosing(token: string) {
    StartsWith(token, "</")
  }

  /** The lines of the tokens from a depth on; nothing when the elements do not nest. */
  function Lines(tokens: seq<string>, depth: nat): Option<seq<string>> {
    if tokens == [] then (if depth == 0 then Some([]) else None)
    else if !IsMarkup(tokens[0]) then Prepend(TextLine(tokens[0], depth), Lines(tokens[1..], depth))
    else if IsClosing(tokens[0]) then
      if depth == 0 then None else Prepend([Indent(depth - 1) + tokens[0]], Lines(tokens[1..], depth - 1))
    else
      Prepend([Indent(depth) + tokens[0]],
              Lines(tokens[1..], if EndsSelfClosing(tokens[0]) || IsDeclaration(tokens[0]) then depth else depth + 1))
  }

  function TextLine(token: string, depth: nat): seq<string> {
    if Trim(token) == "" then [] else [Indent(depth) + Trim(token)]
  }

  function JoinLines(lines: seq<string>): string {
    if lines == [] then ""
    else if |lines| == 1 then lines[0]
    else lines[0] + "\n" + JoinLines(lines[1..])
  }

  function Formatted(tokens: seq<string>): Option<string> {
    match Lines(tokens, 0)
    case None => None
    case Some(lines) => Some(JoinLines(lines))
  }

  method Format(tokens: seq<string>) returns (pretty: Option<string>)
    ensures pretty == Formatted(tokens)
  {
    hide Trim, EndsSelfClosing, IsDeclaration, IsClosing, Indent;
    var lines: seq<string>, depth := [], 0;
    assert tokens[0..] == tokens;
    PrependNothing(Lines(tokens, 0));
    for i := 0 to |tokens|
      invariant depth >= 0
      invariant Lines(tokens, 0) == Prepend(lines, Lines(tokens[i..], depth))
    {
      var token := tokens[i];
      assert tokens[i..][1..] == tokens[i + 1..] && lines + [] == lines;
      if !IsMarkup(token) {
        var text := Trim(token);
        PrependTwice(lines, TextLine(token, depth), Lines(tokens[i + 1..], depth));
        if text != "" {
          lines := lines + [Indent(depth) + text];
        }
        continue;
      }
      if IsClosing(token) {
        if depth == 0 {
          return None;
        }
        depth := depth - 1;
        PrependTwice(lines, [Indent(depth) + token], Lines(tokens[i + 1..], depth));
        lines := lines + [Indent(depth) + token];
        continue;
      }
      var below := if EndsSelfClosing(token) || IsDeclaration(token) then depth else depth + 1;
      PrependTwice(lines, [Indent(depth) + token], Lines(tokens[i + 1..], below));
      lines := lines + [Indent(depth) + token];
      if !EndsSelfClosing(token) && !IsDeclaration(token) {
        depth := depth + 1;
      }
    }
    assert tokens[|tokens|..] == [] && lines + [] == lines;
    pretty := if depth == 0 then Some(JoinLines(lines)) else None;
  }

  datatype Presentation = Valid(original: string, pretty: string) | Invalid(original: string)

  function Presented(original: string): Presentation {
    match Tokens(original)
    case None => Invalid(original)
    case Some(tokens) =>
      match Formatted(tokens)
      case None => Invalid(original)
      case Some(pretty) => Valid(original, pretty)
  }

  method CreateXmlPresentation(original: string) returns (presentation: Presentation)
    ensures presentation == Presented(original)
  {
    var tokens := Tokenize(original);
    if tokens.None? {
      return Invalid(original);
    }
    var pretty := Format(tokens.value);
    presentation := if pretty.None? then Invalid(original) else Valid(original, pretty.value);
  }

  // ---- markup is recognised by itself

  lemma {:induction false} FindEndStable(s: string, r: string, ending: string, from: nat, n: nat)
    requires FindEnd(s, ending, from) == Some(n)
    ensures FindEnd(s[..n] + r, ending, from) == Some(n)
    decreases n - from
  {
    var t := s[..n] + r;
    assert t[from..from + |ending|] == s[from..from + |ending|];
    if s[from..from + |ending|] != ending {
      FindEndStable(s, r, ending, from + 1, n);
    }
  }

  lemma {:induction false} TagEndStable(s: string, r: string, i: nat, quote: Option<char>, n: nat)
    requires i <= |s| && TagEnd(s, i, quote) == Some(n)
    ensures TagEnd(s[..n] + r, i, quote) == Some(n)
    decreases n - i
  {
    var t := s[..n] + r;
    assert t[i] == s[i];
    if quote.Some? {
      TagEndStable(s, r, i + 1, if s[i] == quote.value then None else quote, n);
    } else if s[i] == '"' || s[i] == '\'' {
      TagEndStable(s, r, i + 1, Some(s[i]), n);
    } else if s[i] != '>' {
      TagEndStable(s, r, i + 1, None, n);
    }
  }

  /**
   Text with the same beginning starts with the same prefix; a shorter beginning that ends in `>` rules a
   prefix without it out.
   */
  lemma SamePrefix(s: string, n: nat, r: string, prefix: string)
    requires n <= |s| && (n >= |prefix| || (n > 0 && s[n - 1] == '>' && '>' !in prefix))
    ensures StartsWith(s[..n] + r, prefix) <==> StartsWith(s, prefix)
  {
    var t := s[..n] + r;
    if n >= |prefix| {
      assert t[..|prefix|] == s[..|prefix|];
    } else {
      assert t[n - 1] == '>' && s[n - 1] == '>';
      assert |prefix| <= |t| ==> t[..|prefix|][n - 1] == '>';
      assert |prefix| <= |s| ==> s[..|prefix|][n - 1] == '>';
    }
  }

  /** What follows a complete piece of markup has no say in where it ends. */
  lemma MarkupStable(s: string, n: nat, r: string)
    requires IsMarkup(s) && MarkupLength(s) == Some(n)
    ensures IsMarkup(s[..n] + r) && MarkupLength(s[..n] + r) == Some(n)
  {
    hide FindEnd, TagEnd, StartsWith;
    assert (s[..n] + r)[0] == '<';
    if StartsWith(s, COMMENT) {
      FindEndStable(s, r, "-->", 4, n);
      SamePrefix(s, n, r, COMMENT);
    } else if StartsWith(s, CDATA) {
      FindEndStable(s, r, "]]>", 9, n);
      SamePrefix(s, n, r, COMMENT);
      SamePrefix(s, n, r, CDATA);
    } else {
      assert s[n - 1] == '>' by {
        if StartsWith(s, INSTRUCTION) {
          LastIsClosing(s, n, "?>");
        }
      }
      SamePrefix(s, n, r, COMMENT);
      SamePrefix(s, n, r, CDATA);
      SamePrefix(s, n, r, INSTRUCTION);
      if StartsWith(s, INSTRUCTION) {
        FindEndStable(s, r, "?>", 2, n);
      } else {
        TagEndStable(s, r, 1, None, n);
      }
    }
  }

  lemma LastIsClosing(s: string, n: nat, ending: string)
    requires |ending| <= n <= |s| && ending != "" && s[n - |ending|..n] == ending && ending[|ending| - 1] == '>'
    ensures s[n - 1] == '>'
  {
    assert s[n - 1] == s[n - |ending|..n][|ending| - 1];
  }

  // ---- what a text says

  /** The markup and the trimmed text of a document, in order; white space between markup says nothing. */
  function Content(tokens: seq<string>): seq<string> {
    if tokens == [] then []
    else (if IsMarkup(tokens[0]) then [tokens[0]] else Kept(tokens[0])) + Content(tokens[1..])
  }

  /** A token that reads back as itself before anything. */
  ghost predicate Markup(token: string) {
    IsMarkup(token) && forall r {:trigger token + r} :: IsMarkup(token + r) && MarkupLength(token + r) == Some(|token|)
  }

  /** Text between markup: no markup character in it, and none next to it that is text too. */
  ghost predicate WellTokenized(tokens: seq<string>) {
    && (forall i :: 0 <= i < |tokens| ==> if IsMarkup(tokens[i]) then Markup(tokens[i])
                                          else tokens[i] != "" && '<' !in tokens[i])
    && (forall i :: 0 <= i < |tokens| - 1 ==> IsMarkup(tokens[i]) || IsMarkup(tokens[i + 1]))
  }

  lemma {:induction false} TokensWell(s: string)
    requires Tokens(s).Some?
    ensures WellTokenized(Tokens(s).value)
    ensures s != "" ==> Tokens(s).value != [] && (IsMarkup(Tokens(s).value[0]) <==> s[0] == '<')
    decreases |s|
  {
    hide MarkupLength, TextLength;
    if s != "" {
      var n := if s[0] == '<' then MarkupLength(s) else Some(TextLength(s));
      var rest := Tokens(s[n.value..]).value;
      TokensWell(s[n.value..]);
      var token := s[..n.value];
      assert token[0] == s[0];
      if s[0] == '<' {
        forall r ensures IsMarkup(token + r) && MarkupLength(token + r) == Some(|token|) {
          MarkupStable(s, n.value, r);
        }
      }
      assert Tokens(s).value == [token] + rest;
    }
  }

  /** The pieces of a layout: markup, or tight text without any, never two texts in a row. */
  ghost predicate Pieces(items: seq<string>) {
    && WellTokenized(items)
    && forall i :: 0 <= i < |items| && !IsMarkup(items[i]) ==> Tight(items[i])
  }

  lemma {:induction false} ContentPieces(tokens: seq<string>)
    requires WellTokenized(tokens)
    ensures Pieces(Content(tokens))
    ensures Content(tokens) != [] && !IsMarkup(Content(tokens)[0]) ==> tokens != [] && !IsMarkup(tokens[0])
  {
    hide Markup, Tight, Trim, IsMarkup;
    if tokens != [] {
      var token, rest := tokens[0], Content(tokens[1..]);
      ContentPieces(tokens[1..]);
      if IsMarkup(token) {
        PieceBefore(token, rest);
      } else if Trim(token) != "" {
        var a, b := TrimTakes(token);
        TrimMembers(token, '<');
        assert !IsMarkup(Trim(token)) by { TextIsNotMarkup(Trim(token)); }
        PieceBefore(Trim(token), rest);
      } else {
        assert Content(tokens) == rest;
      }
    }
  }

  lemma PieceBefore(item: string, rest: seq<string>)
    requires Pieces(rest) && (if IsMarkup(item) then Markup(item) else '<' !in item && item != "" && Tight(item))
    requires rest != [] ==> IsMarkup(item) || IsMarkup(rest[0])
    ensures Pieces([item] + rest)
  {
    hide Markup, Tight, IsMarkup;
  }

  // ---- reading a layout back

  /** The layout is made from the content alone. */
  lemma {:induction false} LinesOfContent(tokens: seq<string>, depth: nat)
    requires WellTokenized(tokens)
    ensures Lines(Content(tokens), depth) == Lines(tokens, depth)
    decreases |tokens|
  {
    hide Markup, Trim, EndsSelfClosing, IsDeclaration, IsClosing, Indent;
    if tokens != [] {
      var token, rest := tokens[0], tokens[1..];
      assert WellTokenized(rest);
      LinesOfContent(rest, depth);
      LinesOfContent(rest, depth + 1);
      if depth > 0 {
        LinesOfContent(rest, depth - 1);
      }
      if IsMarkup(token) {
        assert Content(tokens)[1..] == Content(rest);
      } else {
        TrimTwice(token);
        TrimMembers(token, '<');
        PrependNothing(Lines(rest, depth));
        if Trim(token) == "" {
          assert Content(tokens) == Content(rest);
        } else {
          assert Content(tokens)[1..] == Content(rest);
        }
      }
    }
  }

  lemma {:induction false} IndentIsSpace(depth: nat)
    ensures AllSpace(Indent(depth)) && '<' !in Indent(depth)
    ensures |Indent(depth)| == 2 * depth && forall i :: 0 <= i < |Indent(depth)| ==> Indent(depth)[i] == ' '
  {
    if depth > 0 {
      IndentIsSpace(depth - 1);
    }
  }

  /** Text in front of markup, or of nothing, is one token. */
  lemma TextThen(x: string, y: string)
    requires '<' !in x && (y == "" || y[0] == '<')
    ensures Tokens(x + y) == if x == "" then Tokens(y) else Prepend([x], Tokens(y))
  {
    if x == "" {
      assert x + y == y;
    } else {
      var s := x + y;
      var n := TextLength(s);
      assert s[0] == x[0];
      assert y != "" ==> s[|x|] == '<';
      assert forall i :: 0 <= i < |x| ==> s[i] == x[i];
      assert n == |x| by {
        assert n < |s| ==> s[n] == '<';
        assert forall i :: 0 <= i < n ==> s[..n][i] == s[i] && s[i] != '<';
      }
      assert s[..n] == x && s[n..] == y;
    }
  }

  lemma MarkupThen(m: string, tail: string)
    requires Markup(m)
    ensures Tokens(m + tail) == Prepend([m], Tokens(tail))
  {
    var s := m + tail;
    assert IsMarkup(m + tail) && MarkupLength(m + tail) == Some(|m|);
    assert s[..|m|] == m && s[|m|..] == tail;
  }

  /** The tail of a layout after one of its lines. */
  function Tail(lines: seq<string>): string {
    if lines == [] then "" else "\n" + JoinLines(lines)
  }

  /** The first piece of a layout, its line, and the layout of the rest. */
  lemma FirstLine(items: seq<string>, depth: nat) returns (indent: nat, below: nat)
    requires items != [] && Pieces(items) && Lines(items, depth).Some?
    ensures Pieces(items[1..]) && Lines(items[1..], below).Some?
    ensures JoinLines(Lines(items, depth).value) == Indent(indent) + items[0] + Tail(Lines(items[1..], below).value)
    ensures Lines(items[1..], below).value == [] ==> items[1..] == []
  {
    hide Markup, IsSpace, Trim, EndsSelfClosing, IsDeclaration, IsClosing, Indent, Tight;
    var item := items[0];
    if !IsMarkup(item) {
      TightTrims(item);
      indent, below := depth, depth;
    } else if IsClosing(item) {
      indent, below := depth - 1, depth - 1;
    } else {
      indent, below := depth, if EndsSelfClosing(item) || IsDeclaration(item) then depth else depth + 1;
    }
    var rest := Lines(items[1..], below).value;
    assert Lines(items, depth).value == [Indent(indent) + item] + rest;
    assert ([Indent(indent) + item] + rest)[1..] == rest;
    assert rest == [] ==> Indent(indent) + item == Indent(indent) + item + "";
    assert Indent(indent) + item + "\n" + JoinLines(rest) == Indent(indent) + item + ("\n" + JoinLines(rest));
    if items[1..] != [] {
      LinesPerPiece(items[1..], below);
    }
  }

  lemma LinesPerPiece(items: seq<string>, depth: nat)
    requires items != [] && Pieces(items) && Lines(items, depth).Some?
    ensures Lines(items, depth).value != []
  {
    hide Markup, IsSpace, Trim, EndsSelfClosing, IsDeclaration, IsClosing, Indent, Tight;
    if !IsMarkup(items[0]) {
      TightTrims(items[0]);
      assert items[0] != "" by { TightIsSome(items[0]); }
    }
  }

  lemma TightIsSome(s: string)
    requires Tight(s)
    ensures s != ""
  {
  }

  /** A text reads as the given content. */
  ghost predicate ReadsAs(s: string, content: seq<string>) {
    Tokens(s).Some? && Content(Tokens(s).value) == content
  }

  /** Markup behind some text, in front of what reads as the rest. */
  lemma MarkupReads(w: string, indent: string, m: string, tail: string, rest: seq<string>)
    requires Markup(m) && '<' !in w && '<' !in indent && AllSpace(indent) && ReadsAs(tail, rest)
    ensures ReadsAs(w + (indent + m + tail), Kept(w) + ([m] + rest))
  {
    hide Markup, Trim, AllSpace, Tokens, Content;
    var x, y := w + indent, m + tail;
    assert w + (indent + m + tail) == x + y;
    assert y[0] == '<' by { assert IsMarkup(m) by { MarkupIsMarkup(m); } }
    TextThen(x, y);
    MarkupThen(m, tail);
    SpaceAfter(w, indent);
    ContentOfLayout(x, m, Tokens(tail).value, rest);
  }

  lemma MarkupIsMarkup(m: string)
    requires Markup(m)
    ensures IsMarkup(m)
  {
  }

  /** A layout, behind text that its first piece cannot be mistaken for, reads back as that text and its pieces. */
  lemma {:induction false} LayoutReadsBack(w: string, items: seq<string>, depth: nat)
    requires Pieces(items) && Lines(items, depth).Some? && '<' !in w
    requires Trim(w) != "" && items != [] ==> IsMarkup(items[0])
    ensures ReadsAs(w + JoinLines(Lines(items, depth).value), Kept(w) + items)
    decreases |items|
  {
    hide Markup, IsSpace, Trim, Tight, AllSpace, Lines, Indent, ReadsAs, JoinLines, Kept, Tail, IsMarkup, WellTokenized;
    if items == [] {
      NoLines(depth);
      TextAlone(w);
      assert w + "" == w && Kept(w) + [] == Kept(w);
    } else {
      var indent, below := FirstLine(items, depth);
      var item, rest := items[0], Lines(items[1..], below).value;
      IndentIsSpace(indent);
      assert items == [item] + items[1..];
      FirstPiece(items);
      if IsMarkup(item) {
        NewlineIsSpace();
        LayoutReadsBack("\n", items[1..], below);
        TailReads(rest, items[1..]);
        MarkupReads(w, Indent(indent), item, Tail(rest), items[1..]);
      } else {
        var end := if rest == [] then "" else "\n";
        BlankText(w, Indent(indent), item, end);
        LayoutReadsBack(w + Indent(indent) + item + end, items[1..], below);
        TextLayout(w, Indent(indent), item, rest);
        assert [] + items == items;
      }
    }
  }

  lemma FirstPiece(items: seq<string>)
    requires items != [] && Pieces(items)
    ensures IsMarkup(items[0]) ==> Markup(items[0])
    ensures !IsMarkup(items[0]) ==>
      Tight(items[0]) && '<' !in items[0] && (items[1..] != [] ==> IsMarkup(items[1..][0]))
  {
    hide Markup, Tight, IsMarkup;
  }

  /** What reads after a line break reads as the tail. */
  lemma TailReads(lines: seq<string>, items: seq<string>)
    requires ReadsAs("\n" + JoinLines(lines), Kept("\n") + items) && (lines == [] ==> items == [])
    ensures ReadsAs(Tail(lines), items)
  {
    hide JoinLines;
    NewlineIsSpace();
    NothingReads();
    assert [] + items == items;
  }

  lemma TextLayout(w: string, indent: string, t: string, lines: seq<string>)
    ensures w + (indent + t + Tail(lines)) == w + indent + t + (if lines == [] then "" else "\n") + JoinLines(lines)
  {
  }

  lemma NothingReads()
    ensures ReadsAs("", [])
  {
  }

  lemma NoLines(depth: nat)
    requires Lines([], depth).Some?
    ensures JoinLines(Lines([], depth).value) == ""
  {
  }

  lemma NoTokens()
    ensures Tokens("") == Some([])
  {
  }

  lemma NewlineIsSpace()
    ensures AllSpace("\n") && Trim("\n") == "" && '<' !in "\n"
  {
    TrimPadded("\n", "", "");
    assert "\n" + "" + "" == "\n";
  }

  lemma TextAlone(w: string)
    requires '<' !in w
    ensures ReadsAs(w, Kept(w))
  {
    hide Tokens, Trim, IsMarkup;
    assert w + "" == w;
    TextThen(w, "");
    NoTokens();
    EmptyKept();
    if w != "" {
      assert [w] + [] == [w];
      ContentOfText(w);
    }
  }

  lemma ContentOfText(w: string)
    requires '<' !in w
    ensures Content([w]) == Kept(w)
  {
    TextIsNotMarkup(w);
    assert [w][1..] == [] && Content([w][1..]) == [];
    assert Kept(w) + [] == Kept(w);
  }

  lemma TextIsNotMarkup(w: string)
    requires '<' !in w
    ensures !IsMarkup(w)
  {
  }

  lemma SpaceAfter(w: string, b: string)
    requires AllSpace(b)
    ensures Kept(w + b) == Kept(w)
  {
    hide Trim;
    TrimIgnores("", w, b);
    assert "" + w + b == w + b;
  }

  lemma BlankText(w: string, b: string, t: string, end: string)
    requires Trim(w) == "" && AllSpace(b) && Tight(t) && '<' !in w && '<' !in b && '<' !in t
      && (end == "" || end == "\n")
    ensures Kept(w) == [] && Kept(w + b + t + end) == [t] && '<' !in w + b + t + end
  {
    hide Trim, Tight, AllSpace, IsSpace;
    var c, d := TrimTakes(w);
    assert AllSpace(w + b) && AllSpace(end) by { SpacesJoin(c, d, b, end); }
    TrimPadded(w + b, t, end);
    TightIsSome(t);
  }

  lemma SpacesJoin(c: string, d: string, b: string, end: string)
    requires AllSpace(c) && AllSpace(d) && AllSpace(b) && (end == "" || end == "\n")
    ensures AllSpace(c + "" + d + b) && AllSpace(end)
  {
  }

  lemma ContentOfLayout(x: string, m: string, rest: seq<string>, items: seq<string>)
    requires Markup(m) && '<' !in x && Content(rest) == items
    ensures Content([m] + rest) == [m] + items
    ensures Content([x] + ([m] + rest)) == Kept(x) + ([m] + items)
    ensures x == "" ==> Kept(x) == []
  {
    assert ([m] + rest)[1..] == rest && ([x] + ([m] + rest))[1..] == [m] + rest;
  }

  /** The pretty text carries the same markup and the same trimmed text, in the same order. */
  lemma PrettySaysTheSame(original: string)
    requires Presented(original).Valid?
    ensures Tokens(Presented(original).pretty).Some?
    ensures Content(Tokens(Presented(original).pretty).value) == Content(Tokens(original).value)
    ensures Concat(Tokens(original).value) == original
  {
    hide Trim, Markup, Tokens, Lines, Tight, JoinLines, Content;
    var tokens := Tokens(original).value;
    TokensAreLossless(original);
    TokensWell(original);
    ContentPieces(tokens);
    LinesOfContent(tokens, 0);
    EmptyKept();
    LayoutReadsBack("", Content(tokens), 0);
    var pretty := Presented(original).pretty;
    assert "" + pretty == pretty && [] + Content(tokens) == Content(tokens);
  }

  lemma EmptyKept()
    ensures Trim("") == "" && Kept("") == []
  {
  }

  /** Formatting is idempotent: a pretty text is presented as itself. */
  lemma PrettyStaysPretty(original: string)
    requires Presented(original).Valid?
    ensures var pretty := Presented(original).pretty; Presented(pretty) == Valid(pretty, pretty)
  {
    hide Trim, Markup, Tokens, Lines, Tight, Content;
    var tokens, pretty := Tokens(original).value, Presented(original).pretty;
    PrettySaysTheSame(original);
    TokensWell(original);
    TokensWell(pretty);
    LinesOfContent(tokens, 0);
    LinesOfContent(Tokens(pretty).value, 0);
  }

  // ---- nesting

  /** How a token changes the nesting level: an opening tag raises it, a closing tag lowers it. */
  function Rise(token: string): int {
    if !IsMarkup(token) then 0
    else if IsClosing(token) then -1
    else if EndsSelfClosing(token) || IsDeclaration(token) then 0
    else 1
  }

  /** The nesting level after the first `n` tokens. */
  function Level(tokens: seq<string>, n: nat): int
    requires n <= |tokens|
  {
    if n == 0 then 0 else Level(tokens, n - 1) + Rise(tokens[n - 1])
  }

  lemma {:induction false} LevelOfRest(tokens: seq<string>, n: nat)
    requires 0 < n <= |tokens|
    ensures Level(tokens, n) == Rise(tokens[0]) + Level(tokens[1..], n - 1)
  {
    hide Rise;
    if n > 1 {
      LevelOfRest(tokens, n - 1);
    }
  }

  /** Every tag that closes has one open, and none is left open. */
  ghost predicate Nested(tokens: seq<string>, depth: nat) {
    && (forall n :: 0 <= n <= |tokens| ==> depth + Level(tokens, n) >= 0)
    && depth + Level(tokens, |tokens|) == 0
  }

  lemma NestedRest(tokens: seq<string>, depth: nat)
    requires tokens != []
    ensures Nested(tokens, depth) <==> depth + Rise(tokens[0]) >= 0 && Nested(tokens[1..], depth + Rise(tokens[0]))
  {
    hide Rise;
    var rest := tokens[1..];
    forall n | 0 < n <= |tokens| ensures Level(tokens, n) == Rise(tokens[0]) + Level(rest, n - 1) {
      LevelOfRest(tokens, n);
    }
    assert Level(tokens, 0) == 0 && Level(tokens, 1) == Rise(tokens[0]) + Level(rest, 0);
    if Nested(tokens, depth) {
      forall n | 0 <= n <= |rest| ensures depth + Rise(tokens[0]) + Level(rest, n) >= 0 {
        assert depth + Level(tokens, n + 1) >= 0;
      }
    }
  }

  /** A document is presented exactly when its elements nest. */
  lemma {:induction false} LaidOutExactlyWhenNested(tokens: seq<string>, depth: nat)
    ensures Lines(tokens, depth).Some? <==> Nested(tokens, depth)
    decreases |tokens|
  {
    hide EndsSelfClosing, IsDeclaration, IsClosing, IsMarkup, Trim, Indent, Nested;
    if tokens == [] {
      assert Nested(tokens, depth) <==> depth == 0 by { NothingNested(depth); }
    } else {
      NestedRest(tokens, depth);
      if depth + Rise(tokens[0]) >= 0 {
        LaidOutExactlyWhenNested(tokens[1..], depth + Rise(tokens[0]));
      }
    }
  }

  lemma NothingNested(depth: nat)
    ensures Nested([], depth) <==> depth == 0
  {
  }

  /**
   Each piece of a document stands on its own line, indented by its nesting level; a closing tag stands with
   its opening one.
   */
  lemma {:induction false} PiecesStandAtLevel(items: seq<string>, depth: nat, i: nat)
    requires Pieces(items) && Lines(items, depth).Some? && i < |items|
    ensures |Lines(items, depth).value| == |items|
    ensures var level := depth + Level(items, i) + (if IsMarkup(items[i]) && IsClosing(items[i]) then -1 else 0);
      level >= 0 && Lines(items, depth).value[i] == Indent(level) + items[i]
    decreases |items|
  {
    hide Markup, IsSpace, Trim, EndsSelfClosing, IsDeclaration, IsClosing, Indent, Tight, IsMarkup, WellTokenized;
    var item, rest := items[0], items[1..];
    LaidOutExactlyWhenNested(items, depth);
    NestedRest(items, depth);
    var below := depth + Rise(item);
    RestPieces(items);
    OneLine(items, depth);
    if rest != [] {
      PiecesStandAtLevel(rest, below, if i == 0 then 0 else i - 1);
    }
    if i > 0 {
      LevelOfRest(items, i);
    }
  }

  lemma RestPieces(items: seq<string>)
    requires items != [] && Pieces(items)
    ensures Pieces(items[1..])
  {
    hide Markup, Tight, IsMarkup;
  }

  lemma OneLine(items: seq<string>, depth: nat)
    requires items != [] && Pieces(items) && Lines(items, depth).Some?
    ensures depth + Rise(items[0]) >= 0 && Lines(items[1..], depth + Rise(items[0])).Some?
    ensures depth + (if IsMarkup(items[0]) && IsClosing(items[0]) then -1 else 0) >= 0
    ensures Lines(items, depth).value ==
      [Indent(depth + if IsMarkup(items[0]) && IsClosing(items[0]) then -1 else 0) + items[0]]
        + Lines(items[1..], depth + Rise(items[0])).value
    ensures items[1..] == [] ==> Lines(items[1..], depth + Rise(items[0])).value == []
  {
    hide Markup, IsSpace, Trim, EndsSelfClosing, IsDeclaration, IsClosing, Indent, Tight;
    if !IsMarkup(items[0]) {
      TightTrims(items[0]);
      TightIsSome(items[0]);
    }
  }

  /**
   A text is presented exactly when its markup is complete and its elements nest; its lines are then the
   pieces of its content, each indented by its nesting level.
   */
  lemma PresentedExactlyWhenNested(original: string)
    ensures Presented(original).Valid? <==> Tokens(original).Some? && Nested(Tokens(original).value, 0)
    ensures Presented(original).Valid? ==>
      var items := Content(Tokens(original).value);
      exists lines: seq<string> ::
        && Presented(original).pretty == JoinLines(lines) && |lines| == |items|
        && forall i :: 0 <= i < |items| ==> LineOf(items, i, lines[i])
  {
    hide Tokens, Lines, JoinLines, Nested, Level, Indent, Content;
    if Tokens(original).Some? {
      var tokens := Tokens(original).value;
      LaidOutExactlyWhenNested(tokens, 0);
      TokensWell(original);
      ContentPieces(tokens);
      LinesOfContent(tokens, 0);
      if Presented(original).Valid? {
        var items, lines := Content(tokens), Lines(tokens, 0).value;
        if items == [] {
          assert Lines([], 0) == Some([]) by { NoLinesAtAll(); }
        } else {
          PiecesStandAtLevel(items, 0, 0);
        }
        forall i | 0 <= i < |items| ensures LineOf(items, i, lines[i]) {
          PiecesStandAtLevel(items, 0, i);
        }
      }
    }
  }

  /** The line of a piece: its text, indented by the level it stands at. */
  ghost predicate LineOf(items: seq<string>, i: nat, line: string)
    requires i < |items|
  {
    var level := Level(items, i) + (if IsMarkup(items[i]) && IsClosing(items[i]) then -1 else 0);
    level >= 0 && line == Indent(level) + items[i]
  }

  lemma NoLinesAtAll()
    ensures Lines([], 0) == Some([])
  {
  }
}
