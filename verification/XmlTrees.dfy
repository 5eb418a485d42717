/**
 Documents as trees: written out in any spacing, they are presented with every tag and text on a line at its
 level.
 */
module XmlTrees {
  import opened Wrappers
  import opened Text
  import opened XmlFormat

  /** A stretch of a tag: bare text, or text in quotes of one kind. */
  datatype Piece = Bare(text: string) | InQuotes(mark: char, text: string)

  datatype Xml =
    | Element(head: seq<Piece>, children: seq<Xml>, name: string)
    | Empty(head: seq<Piece>, space: string)
    | Comment(text: string)
    | CData(text: string)
    | Instruction(text: string)
    | Words(text: string)

  function Stretch(piece: Piece): string {
    match piece
    case Bare(text) => text
    case InQuotes(mark, text) => [mark] + text + [mark]
  }

  function Written(pieces: seq<Piece>): string {
    if pieces == [] then "" else Stretch(pieces[0]) + Written(pieces[1..])
  }

  predicate ProperPiece(piece: Piece) {
    match piece
    case Bare(text) => '>' !in text && '"' !in text && '\'' !in text
    case InQuotes(mark, text) => (mark == '"' || mark == '\'') && mark !in text
  }

  /** A tag's inside: proper pieces that start like a name. */
  predicate ProperHead(head: seq<Piece>) {
    && (forall i :: 0 <= i < |head| ==> ProperPiece(head[i]))
    && Written(head) != "" && Written(head)[0] !in "!?/"
  }

  /** The text ends in a slash, white space aside. */
  ghost predicate EndsInSlash(s: string) {
    exists b, w :: s == b + "/" + w && AllSpace(w)
  }

  /** `ending` occurs in the text followed by it only at the end. */
  ghost predicate EndsOnlyThere(text: string, ending: string) {
    forall i: nat :: i < |text| ==> !OccursAt(text + ending, ending, i)
  }

  ghost predicate Proper(x: Xml)
    decreases x
  {
    match x
    case Element(head, children, name) =>
      && ProperHead(head) && !EndsInSlash(Written(head)) && '>' !in name && '"' !in name && '\'' !in name
      && ProperAll(children)
    case Empty(head, space) => ProperHead(head) && AllSpace(space) && '>' !in space
    case Comment(text) => EndsOnlyThere(text, "-->")
    case CData(text) => EndsOnlyThere(text, "]]>")
    case Instruction(text) => EndsOnlyThere(text, "?>")
    case Words(text) => text != "" && '<' !in text
  }

  /** Proper trees, no two texts side by side. */
  ghost predicate ProperAll(forest: seq<Xml>)
    decreases forest
  {
    && (forall i :: 0 <= i < |forest| ==> Proper(forest[i]))
    && (forall i :: 0 <= i < |forest| - 1 ==> !(forest[i].Words? && forest[i + 1].Words?))
  }

  function Tag(inside: string): string {
    "<" + inside + ">"
  }

  function Source(x: Xml): string
    decreases x
  {
    match x
    case Element(head, children, name) => Tag(Written(head)) + SourceAll(children) + Tag("/" + name)
    case Empty(head, space) => Tag(Written(head) + "/" + space)
    case Comment(text) => "<!--" + text + "-->"
    case CData(text) => "<![CDATA[" + text + "]]>"
    case Instruction(text) => "<?" + text + "?>"
    case Words(text) => text
  }

  function SourceAll(forest: seq<Xml>): string
    decreases forest
  {
    if forest == [] then "" else Source(forest[0]) + SourceAll(forest[1..])
  }

  /** The lines of a tree: its tags and texts in order, each two spaces further in than the element around it. */
  function Laid(x: Xml, depth: nat): seq<string>
    decreases x
  {
    match x
    case Element(head, children, name) =>
      [Indent(depth) + Tag(Written(head))] + LaidAll(children, depth + 1) + [Indent(depth) + Tag("/" + name)]
    case Words(text) => if Trim(text) == "" then [] else [Indent(depth) + Trim(text)]
    case _ => [Indent(depth) + Source(x)]
  }

  function LaidAll(forest: seq<Xml>, depth: nat): seq<string>
    decreases forest
  {
    if forest == [] then [] else Laid(forest[0], depth) + LaidAll(forest[1..], depth)
  }

  // ---- tags read back

  /** Reading over bare text or over a quoted stretch, outside quotes before and after. */
  lemma {:induction false} OverBare(s: string, i: nat, n: nat)
    requires i + n <= |s| && forall k :: i <= k < i + n ==> s[k] != '>' && s[k] != '"' && s[k] != '\''
    ensures TagEnd(s, i, None) == TagEnd(s, i + n, None)
    decreases n
  {
    if n > 0 {
      OverBare(s, i + 1, n - 1);
    }
  }

  lemma {:induction false} OverQuoted(s: string, i: nat, n: nat, mark: char)
    requires i + n < |s| && s[i + n] == mark && forall k :: i <= k < i + n ==> s[k] != mark
    ensures TagEnd(s, i, Some(mark)) == TagEnd(s, i + n + 1, None)
    decreases n
  {
    if n > 0 {
      OverQuoted(s, i + 1, n - 1, mark);
    }
  }

  lemma OverPiece(a: string, piece: Piece, r: string)
    requires ProperPiece(piece)
    ensures TagEnd(a + Stretch(piece) + r, |a|, None) == TagEnd(a + Stretch(piece) + r, |a| + |Stretch(piece)|, None)
  {
    hide TagEnd;
    if piece.Bare? {
      BareRead(a, piece.text, r);
    } else {
      QuotesRead(a, piece.mark, piece.text, r);
    }
  }

  lemma BareRead(a: string, text: string, r: string)
    requires '>' !in text && '"' !in text && '\'' !in text
    ensures TagEnd(a + text + r, |a|, None) == TagEnd(a + text + r, |a| + |text|, None)
  {
    hide TagEnd;
    BareAt(a, text, r);
    OverBare(a + text + r, |a|, |text|);
  }

  lemma QuotesRead(a: string, mark: char, text: string, r: string)
    requires (mark == '"' || mark == '\'') && mark !in text
    ensures var p := [mark] + text + [mark];
      TagEnd(a + p + r, |a|, None) == TagEnd(a + p + r, |a| + |p|, None)
  {
    hide TagEnd;
    QuotesAt(a, mark, text, r);
    OverQuotes(a + ([mark] + text + [mark]) + r, |a|, |text|, mark);
  }

  lemma BareAt(a: string, text: string, r: string)
    requires '>' !in text && '"' !in text && '\'' !in text
    ensures var s := a + text + r;
      forall k :: |a| <= k < |a| + |text| ==> s[k] != '>' && s[k] != '"' && s[k] != '\''
  {
    var s := a + text + r;
    forall k | |a| <= k < |a| + |text| ensures s[k] != '>' && s[k] != '"' && s[k] != '\'' {
      assert s[k] == text[k - |a|];
    }
  }

  lemma QuotesAt(a: string, mark: char, text: string, r: string)
    requires mark !in text
    ensures var s, n := a + ([mark] + text + [mark]) + r, |text|;
      s[|a|] == mark && s[|a| + n + 1] == mark && forall k :: |a| + 1 <= k < |a| + 1 + n ==> s[k] != mark
  {
    var s := a + ([mark] + text + [mark]) + r;
    assert s == (a + [mark]) + text + ([mark] + r);
    forall k | |a| + 1 <= k < |a| + 1 + |text| ensures s[k] != mark {
      assert s[k] == text[k - |a| - 1];
    }
  }

  lemma OverQuotes(s: string, i: nat, n: nat, mark: char)
    requires (mark == '"' || mark == '\'') && i + n + 1 < |s| && s[i] == mark && s[i + n + 1] == mark
    requires forall k :: i + 1 <= k < i + 1 + n ==> s[k] != mark
    ensures TagEnd(s, i, None) == TagEnd(s, i + n + 2, None)
  {
    OverQuoted(s, i + 1, n, mark);
  }

  lemma {:induction false} OverPieces(a: string, pieces: seq<Piece>, r: string)
    requires forall j :: 0 <= j < |pieces| ==> ProperPiece(pieces[j])
    ensures var s := a + Written(pieces) + r; TagEnd(s, |a|, None) == TagEnd(s, |a| + |Written(pieces)|, None)
    decreases |pieces|
  {
    hide TagEnd, Stretch, ProperPiece;
    if pieces != [] {
      var p, rest := Stretch(pieces[0]), Written(pieces[1..]);
      assert a + Written(pieces) + r == a + p + (rest + r);
      assert a + Written(pieces) + r == (a + p) + rest + r;
      OverPiece(a, pieces[0], rest + r);
      OverPieces(a + p, pieces[1..], r);
    }
  }

  /** A tag with a proper inside and plain text after it reads back before anything. */
  lemma TagReads(head: seq<Piece>, tail: string)
    requires (forall i :: 0 <= i < |head| ==> ProperPiece(head[i])) && '>' !in tail && '"' !in tail && '\'' !in tail
    requires var inside := Written(head) + tail; inside != "" && inside[0] !in "!?"
    ensures Markup(Tag(Written(head) + tail))
  {
    hide TagEnd, Written, ProperPiece, MarkupLength, StartsWith;
    var w := Written(head);
    var inside := w + tail;
    forall r ensures IsMarkup(Tag(inside) + r) && MarkupLength(Tag(inside) + r) == Some(|Tag(inside)|) {
      TagReadsBefore(head, tail, r);
    }
  }

  lemma TagReadsBefore(head: seq<Piece>, tail: string, r: string)
    requires (forall i :: 0 <= i < |head| ==> ProperPiece(head[i])) && '>' !in tail && '"' !in tail && '\'' !in tail
    requires var inside := Written(head) + tail; inside != "" && inside[0] !in "!?"
    ensures var tag := Tag(Written(head) + tail); IsMarkup(tag + r) && MarkupLength(tag + r) == Some(|tag|)
  {
    hide TagEnd, Written, ProperPiece, MarkupLength, StartsWith;
    var w := Written(head);
    TagParts(w, tail, r);
    OverPieces("<", head, tail + ">" + r);
    PlainThenEnd("<" + w, tail, r);
    TagStarts(w + tail, r);
    NoSpecialStart(Tag(w + tail) + r, w + tail);
    OrdinaryTag(Tag(w + tail) + r);
  }

  lemma TagStarts(inside: string, r: string)
    requires inside != ""
    ensures var s := Tag(inside) + r; |s| > |inside| + 1 && s[0] == '<' && s[1] == inside[0]
  {
  }

  lemma TagParts(w: string, tail: string, r: string)
    ensures Tag(w + tail) + r == "<" + w + (tail + ">" + r) == "<" + w + tail + (">" + r)
    ensures |Tag(w + tail)| == |w| + |tail| + 2
  {
  }

  lemma OrdinaryTag(s: string)
    requires s != "" && s[0] == '<' && !StartsWith(s, COMMENT) && !StartsWith(s, CDATA) && !StartsWith(s, INSTRUCTION)
    ensures IsMarkup(s) && MarkupLength(s) == TagEnd(s, 1, None)
  {
    hide TagEnd;
  }

  lemma PlainThenEnd(a: string, tail: string, r: string)
    requires '>' !in tail && '"' !in tail && '\'' !in tail
    ensures var s := a + tail + (">" + r); TagEnd(s, |a|, None) == Some(|a| + |tail| + 1)
  {
    var s := a + tail + (">" + r);
    forall k | |a| <= k < |a| + |tail| ensures s[k] != '>' && s[k] != '"' && s[k] != '\'' {
      assert s[k] == tail[k - |a|] && tail[k - |a|] in tail;
    }
    OverBare(s, |a|, |tail|);
    assert s[|a| + |tail|] == '>';
  }

  lemma NoSpecialStart(s: string, inside: string)
    requires inside != "" && inside[0] !in "!?" && |s| > |inside| + 1 && s[0] == '<' && s[1] == inside[0]
    ensures !StartsWith(s, COMMENT) && !StartsWith(s, CDATA) && !StartsWith(s, INSTRUCTION)
    ensures !IsDeclaration(s)
  {
    assert COMMENT[1] == '!' && CDATA[1] == '!' && INSTRUCTION[1] == '?' && "<!"[1] == '!';
    assert |s| >= 4 ==> s[..4][1] == s[1];
    assert |s| >= 9 ==> s[..9][1] == s[1];
    assert s[..2][1] == s[1];
  }

  // ---- comments, character data and instructions read back

  lemma Inner(start: string, t: string, r: string, i: nat, m: nat)
    requires i + m <= |t|
    ensures |start| + i + m <= |start + t + r|
    ensures (start + t + r)[|start| + i..|start| + i + m] == t[i..i + m]
  {
  }

  lemma FirstEnding(start: string, text: string, ending: string, r: string)
    requires ending != "" && EndsOnlyThere(text, ending)
    ensures FindEnd(start + text + ending + r, ending, |start|) == Some(|start| + |text| + |ending|)
  {
    hide FindEnd;
    var t, n := text + ending, |text|;
    var s := start + t + r;
    assert start + text + ending + r == s;
    Inner(start, t, r, n, |ending|);
    assert t[n..n + |ending|] == ending;
    assert OccursAt(s, ending, |start| + n);
    var found := FindEnd(s, ending, |start|);
    NotEarlier(start, text, ending, r, found.value - |ending|);
  }

  lemma NotEarlier(start: string, text: string, ending: string, r: string, i: nat)
    requires EndsOnlyThere(text, ending) && |start| <= i && OccursAt(start + (text + ending) + r, ending, i)
    ensures |start| + |text| <= i
  {
    var t := text + ending;
    assert i < |start| + |text| ==> !OccursAt(t, ending, i - |start|);
  }

  lemma CommentReads(text: string)
    requires EndsOnlyThere(text, "-->")
    ensures Markup("<!--" + text + "-->")
  {
    forall r ensures IsMarkup("<!--" + text + "-->" + r)
                     && MarkupLength("<!--" + text + "-->" + r) == Some(|"<!--" + text + "-->"|) {
      hide FindEnd;
      FirstEnding("<!--", text, "-->", r);
      assert ("<!--" + text + "-->" + r)[..4] == "<!--";
    }
  }

  lemma CDataReads(text: string)
    requires EndsOnlyThere(text, "]]>")
    ensures Markup("<![CDATA[" + text + "]]>")
  {
    forall r ensures IsMarkup("<![CDATA[" + text + "]]>" + r)
                     && MarkupLength("<![CDATA[" + text + "]]>" + r) == Some(|"<![CDATA[" + text + "]]>"|) {
      hide FindEnd;
      FirstEnding("<![CDATA[", text, "]]>", r);
      var s := "<![CDATA[" + text + "]]>" + r;
      assert s[..9] == "<![CDATA[" && s[..4][2] == '[';
      assert COMMENT[2] == '-';
    }
  }

  lemma InstructionReads(text: string)
    requires EndsOnlyThere(text, "?>")
    ensures Markup("<?" + text + "?>")
  {
    forall r ensures IsMarkup("<?" + text + "?>" + r)
                     && MarkupLength("<?" + text + "?>" + r) == Some(|"<?" + text + "?>"|) {
      hide FindEnd;
      FirstEnding("<?", text, "?>", r);
      var s := "<?" + text + "?>" + r;
      assert s[..2] == "<?" && s[1] == '?';
      assert |s| >= 4 ==> s[..4][1] == '?';
      assert |s| >= 9 ==> s[..9][1] == '?';
      assert COMMENT[1] == '!' && CDATA[1] == '!';
    }
  }

  // ---- what kind a tag is

  /** A tag closes itself exactly when a slash comes last in it, white space aside. */
  lemma SelfClosingIff(inside: string)
    ensures EndsSelfClosing(Tag(inside)) <==> EndsInSlash("<" + inside)
  {
    var before := "<" + inside;
    assert Tag(inside)[..|Tag(inside)| - 1] == before;
    var w := TrimEndTakes(before);
    if EndsSelfClosing(Tag(inside)) {
      var t := TrimEnd(before);
      assert before == t[..|t| - 1] + "/" + w;
    }
    if EndsInSlash(before) {
      var b, space :| before == b + "/" + space && AllSpace(space);
      TrimEndPadded(b + "/", space);
      assert !IsSpace('/');
      assert TrimEnd(b + "/") == b + "/";
    }
  }

  lemma SlashInside(inside: string)
    requires inside != ""
    ensures EndsInSlash("<" + inside) <==> EndsInSlash(inside)
  {
    var s := "<" + inside;
    if EndsInSlash(inside) {
      var b, w :| inside == b + "/" + w && AllSpace(w);
      assert s == ("<" + b) + "/" + w;
    }
    if EndsInSlash(s) {
      var b, w :| s == b + "/" + w && AllSpace(w);
      assert (b + "/" + w)[0] == if b == "" then '/' else b[0];
      assert s[1..] == inside && s[1..] == b[1..] + "/" + w;
    }
  }

  // ---- the tokens and the lines of a document

  function TokensOf(x: Xml): seq<string>
    decreases x
  {
    match x
    case Element(head, children, name) => [Tag(Written(head))] + TokensOfAll(children) + [Tag("/" + name)]
    case _ => [Source(x)]
  }

  function TokensOfAll(forest: seq<Xml>): seq<string>
    decreases forest
  {
    if forest == [] then [] else TokensOf(forest[0]) + TokensOfAll(forest[1..])
  }

  /** What is written after a text must not be text. */
  predicate Next(r: string) {
    r == "" || r[0] == '<'
  }

  lemma SourceStarts(x: Xml)
    requires Proper(x)
    ensures Source(x) != "" && (!x.Words? ==> Source(x)[0] == '<')
  {
  }

  lemma ClosingReads(name: string)
    requires '>' !in name && '"' !in name && '\'' !in name
    ensures Markup(Tag("/" + name))
  {
    TagReads([], "/" + name);
    assert Written([]) + ("/" + name) == "/" + name;
  }

  lemma PrependJoin(a: seq<string>, b: seq<string>, c: seq<string>, rest: Option<seq<string>>)
    ensures Prepend(a, Prepend(b, Prepend(c, rest))) == Prepend(a + b + c, rest)
  {
    PrependTwice(b, c, rest);
    PrependTwice(a, b + c, rest);
    assert a + (b + c) == a + b + c;
  }

  lemma SingleTokens(x: Xml, r: string)
    requires Proper(x) && !x.Element? && (x.Words? ==> Next(r))
    ensures Tokens(Source(x) + r) == Prepend(TokensOf(x), Tokens(r))
  {
    hide Markup, Tokens;
    match x
    case Empty(head, space) =>
      TagReads(head, "/" + space) by { SlashTail(space); }
      assert Written(head) + ("/" + space) == Written(head) + "/" + space;
      MarkupThen(Source(x), r);
    case Comment(text) =>
      CommentReads(text);
      MarkupThen(Source(x), r);
    case CData(text) =>
      CDataReads(text);
      MarkupThen(Source(x), r);
    case Instruction(text) =>
      InstructionReads(text);
      MarkupThen(Source(x), r);
    case Words(text) => TextThen(text, r);
  }

  lemma SlashTail(space: string)
    requires AllSpace(space) && '>' !in space
    ensures var tail := "/" + space; '>' !in tail && '"' !in tail && '\'' !in tail
  {
    assert !IsSpace('"') && !IsSpace('\'');
  }

  /** A document's text cuts into its tokens, before whatever may follow it. */
  lemma {:induction false} SourceTokens(forest: seq<Xml>, r: string)
    requires ProperAll(forest) && (forest != [] && forest[|forest| - 1].Words? ==> Next(r))
    ensures Tokens(SourceAll(forest) + r) == Prepend(TokensOfAll(forest), Tokens(r))
    decreases forest
  {
    hide Tokens, Prepend, Markup, Tag;
    if forest == [] {
      assert SourceAll(forest) + r == r;
      PrependNothing(Tokens(r));
    } else {
      var x, rest := forest[0], forest[1..];
      RestProper(forest);
      var after := SourceAll(rest) + r;
      assert SourceAll(forest) + r == Source(x) + after;
      SourceTokens(rest, r);
      FollowsText(forest, r);
      ElementTokens(x, after);
      PrependTwice(TokensOf(x), TokensOfAll(rest), Tokens(r));
    }
  }

  lemma RestProper(forest: seq<Xml>)
    requires forest != [] && ProperAll(forest)
    ensures Proper(forest[0]) && ProperAll(forest[1..])
    ensures forest[1..] != [] ==> forest[1..][|forest| - 2] == forest[|forest| - 1]
    ensures forest[0].Words? && forest[1..] != [] ==> !forest[1..][0].Words?
  {
    hide Proper;
  }

  lemma FollowsText(forest: seq<Xml>, r: string)
    requires forest != [] && ProperAll(forest) && (forest[|forest| - 1].Words? ==> Next(r))
    ensures forest[0].Words? ==> Next(SourceAll(forest[1..]) + r)
  {
    hide Proper;
    if forest[0].Words? && |forest| > 1 {
      SourceStarts(forest[1]);
      assert SourceAll(forest[1..]) == Source(forest[1]) + SourceAll(forest[1..][1..]);
    }
  }

  lemma {:induction false} ElementTokens(x: Xml, r: string)
    requires Proper(x) && (x.Words? ==> Next(r))
    ensures Tokens(Source(x) + r) == Prepend(TokensOf(x), Tokens(r))
    decreases x
  {
    hide Tokens, Prepend, Markup, Tag;
    if x.Element? {
      var open', close := Tag(Written(x.head)), Tag("/" + x.name);
      TagReads(x.head, "");
      assert Written(x.head) + "" == Written(x.head);
      ClosingReads(x.name);
      assert Source(x) + r == open' + (SourceAll(x.children) + (close + r));
      MarkupThen(open', SourceAll(x.children) + (close + r));
      assert Next(close + r) by { MarkupIsMarkup(close); }
      SourceTokens(x.children, close + r);
      MarkupThen(close, r);
      PrependJoin([open'], TokensOfAll(x.children), [close], Tokens(r));
    } else {
      SingleTokens(x, r);
    }
  }

  /** The lines of one token: as long as it is no tag that opens or closes, it stays at its level. */
  lemma FlatLine(token: string, more: seq<string>, depth: nat)
    requires IsMarkup(token) && !IsClosing(token) && (EndsSelfClosing(token) || IsDeclaration(token))
    ensures Lines([token] + more, depth) == Prepend([Indent(depth) + token], Lines(more, depth))
  {
    assert ([token] + more)[1..] == more;
  }

  lemma OpeningLine(token: string, more: seq<string>, depth: nat)
    requires IsMarkup(token) && !IsClosing(token) && !EndsSelfClosing(token) && !IsDeclaration(token)
    ensures Lines([token] + more, depth) == Prepend([Indent(depth) + token], Lines(more, depth + 1))
  {
    assert ([token] + more)[1..] == more;
  }

  lemma ClosingLine(token: string, more: seq<string>, depth: nat)
    requires IsMarkup(token) && IsClosing(token)
    ensures Lines([token] + more, depth + 1) == Prepend([Indent(depth) + token], Lines(more, depth))
  {
    assert ([token] + more)[1..] == more;
  }

  lemma TextLines(text: string, more: seq<string>, depth: nat)
    requires '<' !in text
    ensures Lines([text] + more, depth)
      == Prepend(if Trim(text) == "" then [] else [Indent(depth) + Trim(text)], Lines(more, depth))
  {
    assert ([text] + more)[1..] == more;
  }

  /** A proper tag is no declaration and no closing tag, and closes itself exactly when it is written so. */
  lemma KindOfTag(head: seq<Piece>, tail: string)
    requires ProperHead(head)
    ensures var tag := Tag(Written(head) + tail);
      IsMarkup(tag) && !IsClosing(tag) && !IsDeclaration(tag)
        && (EndsSelfClosing(tag) <==> EndsInSlash(Written(head) + tail))
  {
    hide Written, EndsSelfClosing, EndsInSlash;
    var inside := Written(head) + tail;
    var tag := Tag(inside);
    assert tag[1] == inside[0] == Written(head)[0];
    NoSpecialStart(tag, inside);
    assert tag[..2][1] == tag[1] && "</"[1] == '/';
    SelfClosingIff(inside);
    SlashInside(inside);
  }

  lemma SingleLines(x: Xml, more: seq<string>, depth: nat)
    requires Proper(x) && !x.Element?
    ensures Lines(TokensOf(x) + more, depth) == Prepend(Laid(x, depth), Lines(more, depth))
  {
    hide Lines, Indent, Trim, EndsSelfClosing;
    match x
    case Empty(head, space) =>
      KindOfTag(head, "/" + space);
      assert Written(head) + ("/" + space) == Written(head) + "/" + space;
      assert EndsInSlash(Written(head) + ("/" + space));
      FlatLine(Source(x), more, depth);
    case Comment(text) =>
      assert Source(x)[..2] == "<!";
      FlatLine(Source(x), more, depth);
    case CData(text) =>
      assert Source(x)[..2] == "<!";
      FlatLine(Source(x), more, depth);
    case Instruction(text) =>
      assert Source(x)[..2] == "<?";
      FlatLine(Source(x), more, depth);
    case Words(text) => TextLines(text, more, depth);
  }

  lemma {:induction false} LinesOfAll(forest: seq<Xml>, more: seq<string>, depth: nat)
    requires ProperAll(forest)
    ensures Lines(TokensOfAll(forest) + more, depth) == Prepend(LaidAll(forest, depth), Lines(more, depth))
    decreases forest
  {
    hide Lines, Prepend, Laid, TokensOf;
    if forest == [] {
      assert TokensOfAll(forest) + more == more;
      PrependNothing(Lines(more, depth));
    } else {
      var x, rest := forest[0], forest[1..];
      RestProper(forest);
      assert TokensOfAll(forest) + more == TokensOf(x) + (TokensOfAll(rest) + more);
      ElementLines(x, TokensOfAll(rest) + more, depth);
      LinesOfAll(rest, more, depth);
      PrependTwice(Laid(x, depth), LaidAll(rest, depth), Lines(more, depth));
    }
  }

  lemma {:induction false} ElementLines(x: Xml, more: seq<string>, depth: nat)
    requires Proper(x)
    ensures Lines(TokensOf(x) + more, depth) == Prepend(Laid(x, depth), Lines(more, depth))
    decreases x
  {
    hide Lines, Prepend, EndsSelfClosing, Indent;
    if x.Element? {
      var open', close := Tag(Written(x.head)), Tag("/" + x.name);
      var inner := TokensOfAll(x.children) + ([close] + more);
      KindOfTag(x.head, "");
      assert Written(x.head) + "" == Written(x.head);
      assert TokensOf(x) + more == [open'] + inner;
      OpeningLine(open', inner, depth);
      LinesOfAll(x.children, [close] + more, depth + 1);
      assert close[..2] == "</";
      ClosingLine(close, more, depth);
      PrependJoin([Indent(depth) + open'], LaidAll(x.children, depth + 1), [Indent(depth) + close], Lines(more, depth));
    } else {
      SingleLines(x, more, depth);
    }
  }

  /**
   A document written out from a tree is presented as valid, laid out from that tree: every tag, comment and
   text on its own line, two spaces further in than the element around it.
   */
  lemma TreeIsLaidOut(forest: seq<Xml>)
    requires ProperAll(forest)
    ensures Presented(SourceAll(forest)) == Valid(SourceAll(forest), Join(LaidAll(forest, 0), '\n'))
  {
    hide Lines, Tokens, Source, SourceAll, Laid, LaidAll, TokensOf, TokensOfAll;
    assert SourceAll(forest) + "" == SourceAll(forest) && TokensOfAll(forest) + [] == TokensOfAll(forest);
    SourceTokens(forest, "");
    LinesOfAll(forest, [], 0);
    Ends(TokensOfAll(forest), LaidAll(forest, 0));
    LinesJoined(LaidAll(forest, 0));
  }

  lemma {:induction false} LinesJoined(lines: seq<string>)
    ensures JoinLines(lines) == Join(lines, '\n')
  {
    if |lines| > 1 {
      LinesJoined(lines[1..]);
    }
  }

  lemma Ends(tokens: seq<string>, lines: seq<string>)
    ensures Prepend(tokens, Tokens("")) == Some(tokens) && Prepend(lines, Lines([], 0)) == Some(lines)
  {
    assert tokens + [] == tokens && lines + [] == lines;
  }
}
