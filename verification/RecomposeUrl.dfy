/**
 A URL taken apart for editing and put back together: base, ordered query rows and fragment
 (sections 3.4 and 3.5 of RFC 3986), each row keeping its original spelling until it is edited.
 */
module RecomposeUrl {
  import opened Wrappers
  import opened Text

  /** URI component coding; decoding fails on a malformed escape. */
  datatype Uri = Uri(encode: string -> string, decode: string -> Option<string>)

  /** Encoded text decodes to itself and holds no character that takes a URL apart, nor a plus. */
  ghost predicate UriLaw(uri: Uri) {
    && (forall s :: uri.decode(uri.encode(s)) == Some(s))
    && (forall s :: Free(uri.encode(s), "?#&=+"))
  }

  predicate Free(s: string, marks: string) {
    forall c :: c in s ==> c !in marks
  }

  datatype Row = Row(name: string, value: Option<string>, encodedName: Option<string>, encodedValue: Option<string>,
                     edited: bool)

  datatype Working = Working(baseUrl: string, fragment: Option<string>, query: seq<Row>)

  // ---- the functions

  function SpacesForPluses(s: string): string {
    if s == "" then "" else [if s[0] == '+' then ' ' else s[0]] + SpacesForPluses(s[1..])
  }

  function DecodeComponent(uri: Uri, s: string): string {
    uri.decode(SpacesForPluses(s)).UnwrapOr(s)
  }

  function SplitOn(s: string, mark: char): (parts: seq<string>)
    ensures parts != []
    decreases |s|
  {
    match IndexOf(s, mark)
    case None => [s]
    case Some(i) => [s[..i]] + SplitOn(s[i + 1..], mark)
  }

  function ParseQueryComponent(uri: Uri, component: string): Row {
    match IndexOf(component, '=')
    case None => Row(DecodeComponent(uri, component), None, Some(component), None, false)
    case Some(i) =>
      Row(DecodeComponent(uri, component[..i]), Some(DecodeComponent(uri, component[i + 1..])),
          Some(component[..i]), Some(component[i + 1..]), false)
  }

  function ParseComponents(uri: Uri, components: seq<string>): (rows: seq<Row>)
    ensures |rows| == |components|
  {
    if components == [] then [] else [ParseQueryComponent(uri, components[0])] + ParseComponents(uri, components[1..])
  }

  /** The text before the first mark and, when the mark occurs, the text after it. */
  function Cut(s: string, mark: char): (string, Option<string>) {
    match IndexOf(s, mark)
    case None => (s, None)
    case Some(i) => (s[..i], Some(s[i + 1..]))
  }

  function ParseRecomposeUrl(uri: Uri, url: string): Working {
    var (withoutFragment, fragment) := Cut(url, '#');
    var (baseUrl, rawQuery) := Cut(withoutFragment, '?');
    var query := if rawQuery.UnwrapOr("") == "" then [] else ParseComponents(uri, SplitOn(rawQuery.value, '&'));
    Working(baseUrl, fragment, query)
  }

  function SerializeQueryRow(uri: Uri, row: Row): string {
    var name := if row.edited then uri.encode(row.name) else row.encodedName.UnwrapOr(uri.encode(row.name));
    if row.value.None? then name
    else name + "=" + if row.edited then uri.encode(row.value.value)
      else row.encodedValue.UnwrapOr(uri.encode(row.value.value))
  }

  function SerializeRows(uri: Uri, rows: seq<Row>): (texts: seq<string>)
    ensures |texts| == |rows|
    ensures forall i :: 0 <= i < |rows| ==> texts[i] == SerializeQueryRow(uri, rows[i])
  {
    if rows == [] then [] else [SerializeQueryRow(uri, rows[0])] + SerializeRows(uri, rows[1..])
  }

  function Query(uri: Uri, rows: seq<Row>): string {
    Join(SerializeRows(uri, rows), '&')
  }

  function BuildReplayUrl(uri: Uri, working: Working): string {
    var query := Query(uri, working.query);
    working.baseUrl + (if query != "" then "?" + query else "")
      + (if working.fragment.None? then "" else "#" + working.fragment.value)
  }

  // ---- cutting and joining

  lemma CutRejoins(s: string, mark: char)
    ensures var (before, after) := Cut(s, mark);
      && mark !in before
      && s == before + (if after.None? then "" else [mark] + after.value)
  {
  }

  lemma CutAt(before: string, mark: char, after: Option<string>)
    requires mark !in before
    ensures Cut(before + (if after.None? then "" else [mark] + after.value), mark) == (before, after)
  {
    if after.None? {
      assert before + "" == before;
    } else {
      var s := before + [mark] + after.value;
      assert s == before + ([mark] + after.value);
      FirstIndex(before, mark, after.value);
      assert s[..|before|] == before && s[|before| + 1..] == after.value;
    }
  }

  lemma {:induction false} SplitRejoins(s: string, mark: char)
    ensures Join(SplitOn(s, mark), mark) == s
    ensures forall p :: p in SplitOn(s, mark) ==> mark !in p
    decreases |s|
  {
    match IndexOf(s, mark)
    case None =>
    case Some(i) =>
      SplitRejoins(s[i + 1..], mark);
      assert s == s[..i] + [mark] + s[i + 1..];
      var parts := SplitOn(s, mark);
      assert parts[1..] == SplitOn(s[i + 1..], mark);
  }

  lemma {:induction false} JoinedSplits(pieces: seq<string>, mark: char)
    requires pieces != [] && forall i :: 0 <= i < |pieces| ==> mark !in pieces[i]
    ensures SplitOn(Join(pieces, mark), mark) == pieces
  {
    if |pieces| > 1 {
      JoinedSplits(pieces[1..], mark);
      FirstPiece(pieces[0], mark, Join(pieces[1..], mark));
    } else {
      assert pieces == [pieces[0]];
    }
  }

  lemma FirstPiece(first: string, mark: char, rest: string)
    requires mark !in first
    ensures SplitOn(first + [mark] + rest, mark) == [first] + SplitOn(rest, mark)
  {
    var s := first + [mark] + rest;
    FirstIndex(first, mark, rest);
    assert s[..|first|] == first && s[|first| + 1..] == rest;
  }

  // ---- building what was parsed

  lemma ComponentReturns(uri: Uri, component: string)
    ensures SerializeQueryRow(uri, ParseQueryComponent(uri, component)) == component
  {
    var i := IndexOf(component, '=');
    if i.Some? {
      assert component == component[..i.value] + "=" + component[i.value + 1..];
    }
  }

  lemma {:induction false} ComponentsReturn(uri: Uri, components: seq<string>)
    ensures SerializeRows(uri, ParseComponents(uri, components)) == components
  {
    hide SerializeQueryRow, ParseQueryComponent;
    if components != [] {
      ComponentReturns(uri, components[0]);
      ComponentsReturn(uri, components[1..]);
    }
  }

  /** A question mark with nothing between it and the fragment, or the end. */
  predicate HasEmptyQuery(url: string) {
    Cut(Cut(url, '#').0, '?').1 == Some("")
  }

  /**
   Building what was parsed gives the URL back, character for character, exactly when its query is not empty
   behind a question mark.
   */
  lemma BuildAfterParseIff(uri: Uri, url: string)
    ensures BuildReplayUrl(uri, ParseRecomposeUrl(uri, url)) == url <==> !HasEmptyQuery(url)
  {
    hide Cut, ParseComponents, SerializeRows, SplitOn, Join;
    CutRejoins(url, '#');
    var (withoutFragment, fragment) := Cut(url, '#');
    CutRejoins(withoutFragment, '?');
    var (baseUrl, rawQuery) := Cut(withoutFragment, '?');
    var raw := rawQuery.UnwrapOr("");
    var tail := if fragment.None? then "" else "#" + fragment.value;
    if raw == "" {
      assert Query(uri, []) == "" by { NoQuery(uri); }
      assert BuildReplayUrl(uri, ParseRecomposeUrl(uri, url)) == baseUrl + "" + tail == baseUrl + tail;
      if rawQuery.Some? {
        assert |url| == |baseUrl| + 1 + |tail|;
      }
    } else {
      SplitRejoins(raw, '&');
      ComponentsReturn(uri, SplitOn(raw, '&'));
      assert Query(uri, ParseComponents(uri, SplitOn(raw, '&'))) == raw;
    }
  }

  lemma NoQuery(uri: Uri)
    ensures Query(uri, []) == ""
  {
  }

  // ---- parsing what was built

  /** A row still spelled as it was parsed decodes to what it shows; an edited one is encoded afresh. */
  predicate Faithful(uri: Uri, row: Row) {
    row.edited || (
      && (row.encodedName.Some? ==>
          Free(row.encodedName.value, "#&=") && DecodeComponent(uri, row.encodedName.value) == row.name)
      && (row.value.Some? && row.encodedValue.Some? ==>
            Free(row.encodedValue.value, "#&") && DecodeComponent(uri, row.encodedValue.value) == row.value.value))
  }

  function Pairs(rows: seq<Row>): seq<(string, Option<string>)> {
    seq(|rows|, i requires 0 <= i < |rows| => (rows[i].name, rows[i].value))
  }

  lemma {:induction false} NoPluses(s: string)
    requires '+' !in s
    ensures SpacesForPluses(s) == s
  {
    if s != "" {
      assert s[0] in s && forall c :: c in s[1..] ==> c in s;
      NoPluses(s[1..]);
    }
  }

  lemma EncodedDecodes(uri: Uri, s: string)
    requires UriLaw(uri)
    ensures DecodeComponent(uri, uri.encode(s)) == s && Free(uri.encode(s), "#&=")
  {
    assert Free(uri.encode(s), "?#&=+");
    assert '+' in "?#&=+" && forall c :: c in "#&=" ==> c in "?#&=+";
    NoPluses(uri.encode(s));
  }

  /** The text of a row holds no character that would cut it or the query, and reads back as its pair. */
  lemma RowReturns(uri: Uri, row: Row)
    requires UriLaw(uri) && Faithful(uri, row)
    ensures var text := SerializeQueryRow(uri, row);
      && '#' !in text && '&' !in text
      && var back := ParseQueryComponent(uri, text); back.name == row.name && back.value == row.value
  {
    hide DecodeComponent, UriLaw;
    EncodedDecodes(uri, row.name);
    var name := if row.edited then uri.encode(row.name) else row.encodedName.UnwrapOr(uri.encode(row.name));
    assert Free(name, "#&=") && DecodeComponent(uri, name) == row.name;
    assert '=' !in name && '#' !in name && '&' !in name by { FreeOf(name, "#&="); }
    if row.value.Some? {
      EncodedDecodes(uri, row.value.value);
      var value := if row.edited then uri.encode(row.value.value)
        else row.encodedValue.UnwrapOr(uri.encode(row.value.value));
      assert '#' !in value && '&' !in value by { FreeOf(value, "#&"); }
      FirstIndex(name, '=', value);
      var text := name + ['='] + value;
      assert text[..|name|] == name && text[|name| + 1..] == value;
    }
  }

  lemma FreeOf(s: string, marks: string)
    requires Free(s, marks)
    ensures forall c :: c in marks ==> c !in s
  {
  }

  lemma {:induction false} RowsReturn(uri: Uri, rows: seq<Row>)
    requires UriLaw(uri) && forall i :: 0 <= i < |rows| ==> Faithful(uri, rows[i])
    ensures Pairs(ParseComponents(uri, SerializeRows(uri, rows))) == Pairs(rows)
    ensures forall i :: 0 <= i < |rows| ==> '#' !in SerializeRows(uri, rows)[i] && '&' !in SerializeRows(uri, rows)[i]
  {
    hide SerializeQueryRow, ParseQueryComponent, Faithful, UriLaw;
    if rows != [] {
      RowReturns(uri, rows[0]);
      RowsReturn(uri, rows[1..]);
      var texts := SerializeRows(uri, rows);
      assert texts[1..] == SerializeRows(uri, rows[1..]);
      var back := ParseComponents(uri, texts);
      assert back == [ParseQueryComponent(uri, texts[0])] + ParseComponents(uri, texts[1..]);
      PairsOfMore(ParseQueryComponent(uri, texts[0]), ParseComponents(uri, texts[1..]));
      PairsOfMore(rows[0], rows[1..]);
      assert rows == [rows[0]] + rows[1..];
      assert forall i :: 0 < i < |rows| ==> texts[i] == texts[1..][i - 1];
    }
  }

  lemma PairsOfMore(row: Row, rows: seq<Row>)
    ensures Pairs([row] + rows) == [(row.name, row.value)] + Pairs(rows)
  {
  }

  lemma {:induction false} JoinFree(pieces: seq<string>, mark: char, other: char)
    requires mark != other && forall i :: 0 <= i < |pieces| ==> other !in pieces[i]
    ensures other !in Join(pieces, mark)
  {
    if |pieces| > 1 {
      JoinFree(pieces[1..], mark, other);
    }
  }

  /**
   Parsing what was built from an edited draft with a delimiter-free base gives back the base, the
   fragment and the decoded pairs in order, exactly when the draft has no rows or its query is not empty.
   */
  lemma ParseAfterBuildIff(uri: Uri, working: Working)
    requires UriLaw(uri) && Free(working.baseUrl, "?#")
    requires forall i :: 0 <= i < |working.query| ==> Faithful(uri, working.query[i])
    ensures var back := ParseRecomposeUrl(uri, BuildReplayUrl(uri, working));
      && back.baseUrl == working.baseUrl && back.fragment == working.fragment
      && (Pairs(back.query) == Pairs(working.query) <==> working.query == [] || Query(uri, working.query) != "")
  {
    hide UriLaw, Faithful, Cut, ParseComponents, SerializeRows, SplitOn, Join;
    FreeOf(working.baseUrl, "?#");
    assert '?' in "?#" && '#' in "?#";
    RowsReturn(uri, working.query);
    var texts := SerializeRows(uri, working.query);
    JoinFree(texts, '&', '#');
    var query := Query(uri, working.query);
    var rawQuery := if query == "" then None else Some(query);
    var withoutFragment := working.baseUrl + if rawQuery.None? then "" else ['?'] + rawQuery.value;
    assert BuildReplayUrl(uri, working)
      == withoutFragment + (if working.fragment.None? then "" else ['#'] + working.fragment.value);
    assert '#' !in withoutFragment;
    CutAt(withoutFragment, '#', working.fragment);
    CutAt(working.baseUrl, '?', rawQuery);
    if query != "" {
      assert texts != [] by { NoQuery(uri); }
      JoinedSplits(texts, '&');
    }
  }

  /** The one draft that is lost: a single row whose text is empty. */
  lemma OnlyEmptyRowIsLost(uri: Uri, rows: seq<Row>)
    ensures rows != [] && Query(uri, rows) == "" <==> |rows| == 1 && SerializeQueryRow(uri, rows[0]) == ""
  {
    var texts := SerializeRows(uri, rows);
    if |rows| > 1 {
      assert Join(texts, '&') == texts[0] + ['&'] + Join(texts[1..], '&');
    }
  }

  // ---- what the rows read

  /** The text a component stands for: pluses are spaces, escapes decoded, or as it stands if that fails. */
  function Meaning(uri: Uri, s: string): string {
    var spaced := seq(|s|, i requires 0 <= i < |s| => if s[i] == '+' then ' ' else s[i]);
    match uri.decode(spaced)
    case Some(text) => text
    case None => s
  }

  lemma {:induction false} PlusesBecomeSpaces(s: string)
    ensures |SpacesForPluses(s)| == |s|
    ensures forall i :: 0 <= i < |s| ==> SpacesForPluses(s)[i] == if s[i] == '+' then ' ' else s[i]
  {
    if s != "" {
      PlusesBecomeSpaces(s[1..]);
      forall i | 0 < i < |s| ensures SpacesForPluses(s)[i] == if s[i] == '+' then ' ' else s[i] {
        assert s[i] == s[1..][i - 1] && SpacesForPluses(s)[i] == SpacesForPluses(s[1..])[i - 1];
      }
    }
  }

  lemma DecodesToMeaning(uri: Uri, s: string)
    ensures DecodeComponent(uri, s) == Meaning(uri, s)
  {
    PlusesBecomeSpaces(s);
    assert SpacesForPluses(s) == seq(|s|, i requires 0 <= i < |s| => if s[i] == '+' then ' ' else s[i]);
  }

  /** A row as read: both parts keep their spelling and show its meaning, split at the first equals sign. */
  ghost predicate AsRead(uri: Uri, row: Row) {
    && !row.edited && row.encodedName.Some? && '=' !in row.encodedName.value
    && row.name == Meaning(uri, row.encodedName.value)
    && (row.value.Some? <==> row.encodedValue.Some?)
    && (row.value.Some? ==> row.value.value == Meaning(uri, row.encodedValue.value))
  }

  lemma {:induction false} ComponentsRead(uri: Uri, components: seq<string>)
    ensures forall i :: 0 <= i < |components| ==> AsRead(uri, ParseComponents(uri, components)[i])
  {
    if components != [] {
      ComponentsRead(uri, components[1..]);
      forall s ensures DecodeComponent(uri, s) == Meaning(uri, s) { DecodesToMeaning(uri, s); }
      hide Meaning, DecodeComponent;
    }
  }

  /** Every row of a parsed URL shows what its spelling means. */
  lemma RowsShowMeaning(uri: Uri, url: string)
    ensures forall row :: row in ParseRecomposeUrl(uri, url).query ==> AsRead(uri, row)
  {
    hide AsRead;
    var rawQuery := Cut(Cut(url, '#').0, '?').1;
    if rawQuery.UnwrapOr("") != "" {
      ComponentsRead(uri, SplitOn(rawQuery.value, '&'));
    }
  }
}
