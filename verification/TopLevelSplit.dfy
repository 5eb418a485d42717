/** Cutting text at a delimiter, outside parentheses and quotes. */
module TopLevelSplit {

  import opened Sequences
  import opened Text

  /** The parts of `part + rest`, where `part` is open and `rest` still to be read. */
  function Split(part: string, rest: string, delimiter: string, depth: int, quote: bool): seq<string>
    requires delimiter != ""
    decreases |rest|
  {
    if rest == "" then Kept(part)
    else
      var c := rest[0];
      if c == '\'' then
        if quote && |rest| > 1 && rest[1] == '\'' then Split(part + rest[..2], rest[2..], delimiter, depth, quote)
        else Split(part + [c], rest[1..], delimiter, depth, !quote)
      else if quote then Split(part + [c], rest[1..], delimiter, depth, quote)
      else if c == '(' then Split(part + [c], rest[1..], delimiter, depth + 1, quote)
      else if c == ')' then Split(part + [c], rest[1..], delimiter, depth - 1, quote)
      else if depth == 0 && StartsWith(rest, delimiter)
        then Kept(part) + Split("", rest[|delimiter|..], delimiter, depth, quote)
      else Split(part + [c], rest[1..], delimiter, depth, quote)
  }

  function SplitParts(value: string, delimiter: string): seq<string>
    requires delimiter != ""
  {
    if Trim(value) == "" then [] else Split("", value, delimiter, 0, false)
  }

  lemma Slices(value: string, start: nat, index: nat, n: nat)
    requires start <= index && index + n <= |value|
    ensures value[index..][n..] == value[index + n..]
    ensures value[start..index] + value[index..][..n] == value[start..index + n]
  {
  }

  method SplitTopLevel(value: string, delimiter: string) returns (parts: seq<string>)
    requires delimiter != ""
    ensures parts == SplitParts(value, delimiter)
  {
    hide Trim, Kept, StartsWith;
    if Trim(value) == "" {
      return [];
    }
    parts := [];
    var depth, quote, start, index := 0, false, 0, 0;
    ghost var whole := Split("", value, delimiter, 0, false);
    assert value[0..] == value;
    while index < |value|
      invariant 0 <= start <= index <= |value|
      invariant whole == parts + Split(value[start..index], value[index..], delimiter, depth, quote)
    {
      var character, rest := value[index], value[index..];
      Slices(value, start, index, 1);
      assert rest[..1] == [character];
      if character == '\'' {
        if quote && index + 1 < |value| && value[index + 1] == '\'' {
          Slices(value, start, index, 2);
          index := index + 2;
          continue;
        }
        quote := !quote;
      } else if quote {
      } else if character == '(' {
        depth := depth + 1;
      } else if character == ')' {
        depth := depth - 1;
      } else if depth == 0 && StartsWith(rest, delimiter) {
        NextPart(value, start, index, delimiter, parts);
        parts := parts + Kept(value[start..index]);
        index := index + |delimiter|;
        start := index;
        continue;
      }
      index := index + 1;
    }
    assert value[index..] == "" && value[start..index] == value[start..];
    parts := parts + Kept(value[start..]);
  }

  /** At a delimiter the open part is closed and the next one starts empty. */
  lemma SplitAtDelimiter(part: string, rest: string, delimiter: string)
    requires delimiter != "" && rest != "" && StartsWith(rest, delimiter) && rest[0] != '\'' && rest[0] != '('
      && rest[0] != ')'
    ensures Split(part, rest, delimiter, 0, false) == Kept(part) + Split("", rest[|delimiter|..], delimiter, 0, false)
  {
    hide Kept;
  }

  lemma NextPart(value: string, start: nat, index: nat, delimiter: string, parts: seq<string>)
    requires delimiter != "" && start <= index < |value| && StartsWith(value[index..], delimiter)
    requires value[index] != '\'' && value[index] != '(' && value[index] != ')'
    ensures index + |delimiter| <= |value|
    ensures var next := index + |delimiter|;
      parts + Split(value[start..index], value[index..], delimiter, 0, false)
      == parts + Kept(value[start..index]) + Split(value[next..next], value[next..], delimiter, 0, false)
  {
    hide Kept, Split, StartsWith;
    PrefixFits(value[index..], delimiter);
    var next := index + |delimiter|;
    var whole, rest := Split(value[start..index], value[index..], delimiter, 0, false), value[next..];
    assert whole == Kept(value[start..index]) + Split("", rest, delimiter, 0, false) by {
      DropDrop(value, index, |delimiter|);
      SplitAtDelimiter(value[start..index], value[index..], delimiter);
    }
    NothingBetween(value, next);
    ConcatAssociates(parts, Kept(value[start..index]), Split("", rest, delimiter, 0, false));
  }

  lemma NothingBetween(value: string, i: nat)
    requires i <= |value|
    ensures value[i..i] == ""
  {
  }

  lemma DropDrop(value: string, index: nat, n: nat)
    requires index + n <= |value|
    ensures value[index..][n..] == value[index + n..]
  {
  }

  lemma PrefixFits(s: string, prefix: string)
    requires StartsWith(s, prefix)
    ensures |prefix| <= |s|
  {
  }

  // ---- parts are no longer than the text, and joined parts split back

  lemma {:induction false} PartsFit(part: string, rest: string, delimiter: string, depth: int, quote: bool)
    requires delimiter != ""
    ensures forall p :: p in Split(part, rest, delimiter, depth, quote) ==> 0 < |p| <= |part| + |rest|
    decreases |rest|
  {
    hide Trim, IsSpace;
    if rest != "" {
      var c := rest[0];
      if c == '\'' {
        if quote && |rest| > 1 && rest[1] == '\'' {
          PartsFit(part + rest[..2], rest[2..], delimiter, depth, quote);
        } else {
          PartsFit(part + [c], rest[1..], delimiter, depth, !quote);
        }
      } else if !quote && c != '(' && c != ')' && depth == 0 && StartsWith(rest, delimiter) {
        PartsFit("", rest[|delimiter|..], delimiter, depth, quote);
      } else {
        PartsFit(part + [c], rest[1..], delimiter, if quote then depth else if c == '(' then depth + 1 else if c == ')'
                 then depth - 1 else depth, quote);
      }
    }
  }

  /** Reading text without quotes: the depth it ends at, or nothing when it meets the delimiter at depth zero. */
  function Walk(s: string, mark: char, depth: int): (end: seq<int>)
    ensures |end| <= 1
  {
    if s == "" then [depth]
    else if s[0] == '\'' || (s[0] == mark && depth == 0) then []
    else Walk(s[1..], mark, if s[0] == '(' then depth + 1 else if s[0] == ')' then depth - 1 else depth)
  }

  lemma {:induction false} WalkConcat(a: string, b: string, mark: char, depth: int)
    ensures Walk(a + b, mark, depth) == if Walk(a, mark, depth) == [] then []
      else Walk(b, mark, Walk(a, mark, depth)[0])
  {
    if a == "" {
      assert a + b == b;
    } else {
      assert (a + b)[1..] == a[1..] + b;
      WalkConcat(a[1..], b, mark, if a[0] == '(' then depth + 1 else if a[0] == ')' then depth - 1 else depth);
    }
  }

  predicate Plain(s: string) {
    forall c :: c in s ==> c != '(' && c != ')' && c != ',' && c != ';' && c != '\''
  }

  /** Plain text is walked through at any depth. */
  lemma {:induction false} WalkPlain(s: string, mark: char, depth: int)
    requires Plain(s) && (mark == ',' || mark == ';')
    ensures Walk(s, mark, depth) == [depth]
  {
    if s != "" {
      assert s[0] in s && forall c :: c in s[1..] ==> c in s;
      WalkPlain(s[1..], mark, depth);
    }
  }

  /** Text that is walked through is read into the open part. */
  lemma {:induction false} SplitWalks(part: string, a: string, rest: string, mark: char, depth: int)
    requires mark != '(' && mark != ')' && mark != '\'' && Walk(a, mark, depth) != []
    ensures Split(part, a + rest, [mark], depth, false) == Split(part + a, rest, [mark], Walk(a, mark, depth)[0], false)
    decreases |a|
  {
    hide Kept;
    if a == "" {
      assert a + rest == rest && part + a == part;
    } else {
      var whole := a + rest;
      assert whole[0] == a[0] && whole[1..] == a[1..] + rest;
      assert part + a == part + [a[0]] + a[1..];
      SplitWalks(part + [a[0]], a[1..], rest, mark, if a[0] == '(' then depth + 1 else if a[0] == ')' then depth - 1
                 else depth);
    }
  }

  /** Tight pieces that never show the mark at depth zero. */
  predicate Solid(pieces: seq<string>, mark: char) {
    forall i :: 0 <= i < |pieces| ==> Tight(pieces[i]) && Walk(pieces[i], mark, 0) == [0]
  }

  lemma {:induction false} JoinedSplit(pieces: seq<string>, mark: char)
    requires mark != '(' && mark != ')' && mark != '\'' && Solid(pieces, mark) && pieces != []
    ensures Split("", Join(pieces, mark), [mark], 0, false) == pieces
  {
    hide IsSpace, Walk;
    var first := pieces[0];
    TightTrims(first);
    if |pieces| == 1 {
      assert first + "" == first;
      SplitWalks("", first, "", mark, 0);
      assert "" + first == first;
    } else {
      var rest := Join(pieces[1..], mark);
      assert Join(pieces, mark) == first + ([mark] + rest);
      SplitWalks("", first, [mark] + rest, mark, 0);
      assert "" + first == first;
      assert StartsWith([mark] + rest, [mark]) && ([mark] + rest)[1..] == rest;
      JoinedSplit(pieces[1..], mark);
    }
  }

  lemma {:induction false} JoinTight(pieces: seq<string>, mark: char)
    requires pieces != [] && forall i :: 0 <= i < |pieces| ==> Tight(pieces[i])
    ensures Tight(Join(pieces, mark))
  {
    hide IsSpace;
    if |pieces| > 1 {
      JoinTight(pieces[1..], mark);
    }
  }

  /** Solid pieces, joined, split back into themselves. */
  lemma JoinedParts(pieces: seq<string>, mark: char)
    requires mark != '(' && mark != ')' && mark != '\'' && Solid(pieces, mark)
    ensures SplitParts(Join(pieces, mark), [mark]) == pieces
  {
    hide IsSpace, Walk;
    if pieces == [] {
      assert Trim("") == "";
    } else {
      JoinTight(pieces, mark);
      TightTrims(Join(pieces, mark));
      JoinedSplit(pieces, mark);
    }
  }

  // ---- exactly where the text is cut

  /** Position `i` is inside quotes: an odd number of quote characters comes before it. */
  function Quoted(s: string, i: nat): bool
    requires i <= |s|
  {
    if i == 0 then false else Quoted(s, i - 1) != (s[i - 1] == '\'')
  }

  /** How many parentheses outside quotes are open at position `i`. */
  function Depth(s: string, i: nat): int
    requires i <= |s|
  {
    if i == 0 then 0
    else
      Depth(s, i - 1) + (if Quoted(s, i - 1) then 0 else if s[i - 1] == '(' then 1 else if s[i - 1] == ')' then -1
                         else 0)
  }

  /** The delimiter stands at position `i`, outside quotes and parentheses. */
  predicate CutsAt(s: string, delimiter: string, i: nat)
    requires delimiter != ""
  {
    && i + |delimiter| <= |s| && s[i..i + |delimiter|] == delimiter
    && !Quoted(s, i) && Depth(s, i) == 0 && s[i] != '\'' && s[i] != '(' && s[i] != ')'
  }

  lemma {:induction false} ReadsTo(s: string, delimiter: string, p: nat, i: nat)
    requires delimiter != "" && p <= i <= |s|
    requires forall k: nat :: p <= k < i ==> !CutsAt(s, delimiter, k)
    requires i == |s| || s[i] != '\''
    ensures Split(s[..p], s[p..], delimiter, Depth(s, p), Quoted(s, p))
         == Split(s[..i], s[i..], delimiter, Depth(s, i), Quoted(s, i))
    decreases i - p
  {
    hide Kept;
    if p < i {
      var c := s[p];
      assert s[p..][0] == c && s[p..][1..] == s[p + 1..] && s[..p] + [c] == s[..p + 1];
      if c == '\'' && Quoted(s, p) && p + 1 < |s| && s[p + 1] == '\'' {
        assert s[p..][..2] == s[p..p + 2] && s[p..][2..] == s[p + 2..] && s[..p] + s[p..p + 2] == s[..p + 2];
        ReadsTo(s, delimiter, p + 2, i);
      } else {
        assert |s[p..]| > 1 ==> s[p..][1] == s[p + 1];
        assert !CutsAt(s, delimiter, p);
        if StartsWith(s[p..], delimiter) {
          assert s[p..][..|delimiter|] == s[p..p + |delimiter|];
        }
        ReadsTo(s, delimiter, p + 1, i);
      }
    }
  }

  /**
   Exactly where text is cut: at the first delimiter outside quotes and parentheses, and on from behind it
   in the same way; text without one is a single part.
   */
  lemma SplitsExactly(s: string, delimiter: string, i: nat)
    requires delimiter != "" && i <= |s|
    requires forall k: nat :: k < i ==> !CutsAt(s, delimiter, k)
    ensures CutsAt(s, delimiter, i) ==>
      Split("", s, delimiter, 0, false) == Kept(s[..i]) + Split("", s[i + |delimiter|..], delimiter, 0, false)
    ensures i == |s| ==> Split("", s, delimiter, 0, false) == Kept(s)
  {
    hide Kept;
    assert s[..0] == "" && s[0..] == s;
    if CutsAt(s, delimiter, i) {
      ReadsTo(s, delimiter, 0, i);
      assert StartsWith(s[i..], delimiter) && s[i..][|delimiter|..] == s[i + |delimiter|..];
      SplitAtDelimiter(s[..i], s[i..], delimiter);
    }
    if i == |s| {
      ReadsTo(s, delimiter, 0, i);
      assert s[..i] == s && s[i..] == "";
    }
  }

  /** A comparison with a quoted value that contains the delimiter stays whole. */
  lemma QuotedStaysWhole()
    ensures SplitParts("name eq 'Smith and Sons'", " and ") == ["name eq 'Smith and Sons'"]
  {
    hide Kept, Split, Trim, IsSpace, Quoted, Depth;
    var s := "name eq 'Smith and Sons'";
    forall k: nat | k < |s| ensures !CutsAt(s, " and ", k) {
      if k + 5 <= |s| && s[k..k + 5] == " and " {
        assert s[k] == s[k..k + 5][0] && s[k + 1] == s[k..k + 5][1];
        assert k == 14;
        QuotedFrom(s, 9, 14);
      }
    }
    SplitsExactly(s, " and ", |s|);
    SampleIsTight();
    TightTrims(s);
    assert SplitParts(s, " and ") == Kept(s);
    KeptTight(s);
  }

  lemma SampleIsTight()
    ensures Tight("name eq 'Smith and Sons'")
  {
  }

  lemma KeptTight(s: string)
    requires Trim(s) == s && s != ""
    ensures Kept(s) == [s]
  {
  }

  lemma {:induction false} QuotedFrom(s: string, i: nat, j: nat)
    requires 0 < i <= j <= |s| && s[i - 1] == '\'' && forall k :: 0 <= k < j && k != i - 1 ==> s[k] != '\''
    ensures Quoted(s, j)
  {
    if j == i {
      NothingQuoted(s, i - 1);
    } else {
      QuotedFrom(s, i, j - 1);
    }
  }

  lemma {:induction false} NothingQuoted(s: string, i: nat)
    requires i <= |s| && forall k :: 0 <= k < i ==> s[k] != '\''
    ensures !Quoted(s, i)
  {
    if i > 0 {
      NothingQuoted(s, i - 1);
    }
  }
}
