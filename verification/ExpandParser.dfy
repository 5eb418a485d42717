/**
 The `$expand` option of a query: a list of relations, each with its own columns and, in turn, its own
 expansions (section 5.1.2 of OData Version 4.0 Part 2: URL Conventions).
 */
module ExpandParser {
  import opened Wrappers
  import opened Text
  import opened TopLevelSplit

  datatype Expansion = Expansion(name: string, selectedColumns: seq<string>, expansions: seq<Expansion>)

  const SELECT := "$select="
  const EXPAND := "$expand="

  /** The text after the prefix in the first option that starts with it. */
  function OptionValue(options: seq<string>, prefix: string): (value: string)
    requires |prefix| > 0
    ensures value == "" || exists option :: option in options && |value| < |option|
  {
    if options == [] then ""
    else if StartsWith(Trim(options[0]), prefix) then
      assert options[0] in options;
      Trim(options[0])[|prefix|..]
    else
      assert forall option :: option in options[1..] ==> option in options;
      OptionValue(options[1..], prefix)
  }

  function ParseExpansions(value: string): seq<Expansion>
    decreases |value|, 2, 0
  {
    if Trim(value) == "" then []
    else
      assert forall p :: p in SplitParts(value, ",") ==> |p| <= |value| by { PartsFit("", value, ",", 0, false); }
      ParseAll(SplitParts(value, ","), |value|)
  }

  /** Parses each part and leaves out those that are malformed. */
  function ParseAll(parts: seq<string>, bound: nat): seq<Expansion>
    requires forall p :: p in parts ==> |p| <= bound
    decreases bound, 1, |parts|
  {
    if parts == [] then []
    else
      assert parts[0] in parts;
      var first := ParseExpansion(parts[0]);
      (if first.Some? then [first.value] else []) + ParseAll(parts[1..], bound)
  }

  function ParseExpansion(value: string): Option<Expansion>
    decreases |value|, 0, 0
  {
    var entry := Trim(value);
    if entry == "" then None
    else
      match IndexOf(entry, '(')
      case None => Some(Expansion(entry, [], []))
      case Some(opening) =>
        if entry[|entry| - 1] != ')' then None
        else
          var name := Trim(entry[..opening]);
          var inner := entry[opening + 1..|entry| - 1];
          var options := SplitParts(inner, ";");
          assert forall option :: option in options ==> |option| <= |inner| by { PartsFit("", inner, ";", 0, false); }
          var expand := OptionValue(options, EXPAND);
          if name == "" then None
          else Some(Expansion(name, SplitParts(OptionValue(options, SELECT), ","), ParseExpansions(expand)))
  }

  /**
   What one entry parses to. It is dropped exactly when it is blank, or has an opening parenthesis but no
   closing one at its end or no name before it; its name is what comes before the parenthesis, and without
   one it has neither columns nor expansions.
   */
  lemma EntryParses(value: string)
    ensures var entry, parsed := Trim(value), ParseExpansion(value);
      && (parsed.None? <==>
            || entry == ""
            || ('(' in entry && (entry[|entry| - 1] != ')' || AllSpace(entry[..IndexOf(entry, '(').value]))))
      && (parsed.Some? && '(' !in entry ==> parsed.value == Expansion(entry, [], []))
      && (parsed.Some? && '(' in entry ==> Kept(entry[..IndexOf(entry, '(').value]) == [parsed.value.name])
  {
    hide Trim, SplitParts, OptionValue, ParseExpansions;
    var entry := Trim(value);
    if '(' in entry {
      KeptTells(entry[..IndexOf(entry, '(').value]);
    }
  }

  // ---- printing

  function Options(tree: Expansion): seq<string>
    decreases tree, 0
  {
    (if tree.selectedColumns == [] then [] else [SELECT + Join(tree.selectedColumns, ',')]) +
    (if tree.expansions == [] then [] else [EXPAND + Join(PrintEach(tree.expansions), ',')])
  }

  function Print(tree: Expansion): string
    decreases tree, 1
  {
    var options := Options(tree);
    if options == [] then tree.name else tree.name + "(" + Join(options, ';') + ")"
  }

  function PrintEach(trees: seq<Expansion>): (texts: seq<string>)
    ensures |texts| == |trees|
    decreases trees
  {
    if trees == [] then [] else [Print(trees[0])] + PrintEach(trees[1..])
  }

  predicate Name(s: string) {
    Plain(s) && Tight(s)
  }

  /** Names and columns are plain and trimmed, all the way down. */
  predicate Printable(tree: Expansion)
    decreases tree
  {
    && Name(tree.name)
    && (forall i :: 0 <= i < |tree.selectedColumns| ==> Name(tree.selectedColumns[i]))
    && (forall i :: 0 <= i < |tree.expansions| ==> Printable(tree.expansions[i]))
  }

  // ---- printed text hides its own commas and semicolons

  predicate Separator(mark: char) {
    mark == ',' || mark == ';'
  }

  /** Joined text is walked through wherever its pieces are and its separator is hidden or harmless. */
  lemma {:induction false} WalkJoin(pieces: seq<string>, separator: char, mark: char, depth: int)
    requires Separator(separator) && Separator(mark) && (depth != 0 || separator != mark)
    requires forall i :: 0 <= i < |pieces| ==> Walk(pieces[i], mark, depth) == [depth]
    ensures Walk(Join(pieces, separator), mark, depth) == [depth]
  {
    if |pieces| > 1 {
      WalkJoin(pieces[1..], separator, mark, depth);
      WalkConcat([separator], Join(pieces[1..], separator), mark, depth);
      WalkConcat(pieces[0], [separator] + Join(pieces[1..], separator), mark, depth);
      assert Join(pieces, separator) == pieces[0] + ([separator] + Join(pieces[1..], separator));
    }
  }

  lemma WalkSelect(tree: Expansion, mark: char, depth: int)
    requires Printable(tree) && Separator(mark) && (depth != 0 || mark == ';')
    ensures Walk(SELECT + Join(tree.selectedColumns, ','), mark, depth) == [depth]
  {
    forall i | 0 <= i < |tree.selectedColumns| ensures Walk(tree.selectedColumns[i], mark, depth) == [depth] {
      WalkPlain(tree.selectedColumns[i], mark, depth);
    }
    WalkJoin(tree.selectedColumns, ',', mark, depth);
    WalkPlain(SELECT, mark, depth);
    WalkConcat(SELECT, Join(tree.selectedColumns, ','), mark, depth);
  }

  lemma {:induction false} WalkExpand(tree: Expansion, mark: char, depth: nat)
    requires Printable(tree) && Separator(mark) && (depth != 0 || mark == ';')
    ensures Walk(EXPAND + Join(PrintEach(tree.expansions), ','), mark, depth) == [depth]
    decreases tree, 0
  {
    WalkEach(tree.expansions, mark, depth);
    WalkJoin(PrintEach(tree.expansions), ',', mark, depth);
    WalkPlain(EXPAND, mark, depth);
    WalkConcat(EXPAND, Join(PrintEach(tree.expansions), ','), mark, depth);
  }

  lemma {:induction false} WalkOptions(tree: Expansion, mark: char, depth: nat)
    requires Printable(tree) && Separator(mark) && (depth != 0 || mark == ';')
    ensures forall i :: 0 <= i < |Options(tree)| ==> Walk(Options(tree)[i], mark, depth) == [depth]
    decreases tree, 1
  {
    WalkSelect(tree, mark, depth);
    WalkExpand(tree, mark, depth);
  }

  lemma {:induction false} WalkPrint(tree: Expansion, mark: char, depth: nat)
    requires Printable(tree) && Separator(mark)
    ensures Walk(Print(tree), mark, depth) == [depth]
    decreases tree, 2
  {
    hide Options;
    WalkPlain(tree.name, mark, depth);
    var options := Options(tree);
    if options != [] {
      var inner := Join(options, ';');
      WalkOptions(tree, mark, depth + 1);
      WalkJoin(options, ';', mark, depth + 1);
      WalkParenthesised(tree.name, inner, mark, depth);
    }
  }

  lemma WalkOne(c: char, mark: char, depth: int)
    requires c != '\'' && c != mark
    ensures Walk([c], mark, depth) == [if c == '(' then depth + 1 else if c == ')' then depth - 1 else depth]
  {
    assert [c][1..] == "";
  }

  lemma WalkParenthesised(name: string, inner: string, mark: char, depth: nat)
    requires Separator(mark) && Walk(name, mark, depth) == [depth] && Walk(inner, mark, depth + 1) == [depth + 1]
    ensures Walk(name + "(" + inner + ")", mark, depth) == [depth]
  {
    WalkOne('(', mark, depth);
    WalkOne(')', mark, depth + 1);
    WalkConcat(name, "(", mark, depth);
    WalkConcat(name + "(", inner, mark, depth);
    WalkConcat(name + "(" + inner, ")", mark, depth);
  }

  lemma {:induction false} WalkEach(trees: seq<Expansion>, mark: char, depth: nat)
    requires (forall i :: 0 <= i < |trees| ==> Printable(trees[i])) && Separator(mark)
    ensures forall i :: 0 <= i < |trees| ==> Walk(PrintEach(trees)[i], mark, depth) == [depth]
    decreases trees
  {
    if trees != [] {
      WalkPrint(trees[0], mark, depth);
      WalkEach(trees[1..], mark, depth);
    }
  }

  lemma PrintTight(tree: Expansion)
    requires Printable(tree)
    ensures Tight(Print(tree))
  {
    hide Options;
  }

  lemma {:induction false} EachTight(trees: seq<Expansion>)
    requires forall i :: 0 <= i < |trees| ==> Printable(trees[i])
    ensures forall i :: 0 <= i < |trees| ==> Tight(PrintEach(trees)[i])
  {
    if trees != [] {
      PrintTight(trees[0]);
      EachTight(trees[1..]);
    }
  }

  lemma OptionsSolid(tree: Expansion)
    requires Printable(tree)
    ensures Solid(Options(tree), ';')
  {
    hide IsSpace, Walk;
    WalkOptions(tree, ';', 0);
    EachTight(tree.expansions);
    if tree.selectedColumns != [] {
      JoinTight(tree.selectedColumns, ',');
      PrefixTight(SELECT, Join(tree.selectedColumns, ','));
    }
    if tree.expansions != [] {
      JoinTight(PrintEach(tree.expansions), ',');
      PrefixTight(EXPAND, Join(PrintEach(tree.expansions), ','));
    }
  }

  lemma PrefixTight(prefix: string, s: string)
    requires Tight(s) && prefix != "" && prefix[0] == '$'
    ensures Tight(prefix + s)
  {
  }

  // ---- reading back

  lemma ReadOption(prefix: string, value: string)
    requires Tight(prefix + value) && prefix != ""
    ensures StartsWith(Trim(prefix + value), prefix) && Trim(prefix + value)[|prefix|..] == value
  {
    TightTrims(prefix + value);
  }

  lemma ReadOptions(tree: Expansion)
    requires Printable(tree)
    ensures OptionValue(Options(tree), SELECT) == Join(tree.selectedColumns, ',')
    ensures OptionValue(Options(tree), EXPAND) == Join(PrintEach(tree.expansions), ',')
  {
    hide IsSpace, Walk, Trim, Print, Printable;
    OptionsSolid(tree);
    var select, expand := SELECT + Join(tree.selectedColumns, ','), EXPAND + Join(PrintEach(tree.expansions), ',');
    var options := Options(tree);
    if tree.selectedColumns != [] {
      assert options[0] == select;
      ReadOption(SELECT, Join(tree.selectedColumns, ','));
      TightTrims(select);
      assert select[1] == 's' && !StartsWith(select, EXPAND);
    }
    if tree.expansions != [] {
      assert options[|options| - 1] == expand;
      ReadOption(EXPAND, Join(PrintEach(tree.expansions), ','));
      TightTrims(expand);
      assert expand[1] == 'e' && !StartsWith(expand, SELECT);
    }
  }

  lemma ReadColumns(tree: Expansion)
    requires Printable(tree)
    ensures SplitParts(Join(tree.selectedColumns, ','), ",") == tree.selectedColumns
  {
    forall i | 0 <= i < |tree.selectedColumns| ensures Walk(tree.selectedColumns[i], ',', 0) == [0] {
      WalkPlain(tree.selectedColumns[i], ',', 0);
    }
    JoinedParts(tree.selectedColumns, ',');
  }

  /** Reading a printed relation gives the relation. */
  lemma {:induction false} PrintedParses(tree: Expansion)
    requires Printable(tree)
    ensures ParseExpansion(Print(tree)) == Some(tree)
    decreases tree, 1
  {
    hide IsSpace, Walk, Options, SplitParts, Printable, Join, Trim;
    var entry := Print(tree);
    PrintTight(tree);
    TightTrims(entry);
    NameParts(tree);
    var options := Options(tree);
    if options == [] {
      NothingInside(tree);
      assert IndexOf(entry, '(').None?;
    } else {
      var inner := Join(options, ';');
      FirstIndex(tree.name, '(', inner + ")");
      assert entry == tree.name + ['('] + (inner + ")");
      assert entry[..|tree.name|] == tree.name && entry[|tree.name| + 1..|entry| - 1] == inner;
      OptionsSolid(tree);
      JoinedParts(options, ';');
      ReadOptions(tree);
      ReadColumns(tree);
      EachPrintable(tree);
      PrintedListParses(tree.expansions);
    }
  }

  lemma NameParts(tree: Expansion)
    requires Printable(tree)
    ensures '(' !in tree.name && Trim(tree.name) == tree.name && tree.name != ""
  {
    TightTrims(tree.name);
  }

  lemma EachPrintable(tree: Expansion)
    requires Printable(tree)
    ensures forall i :: 0 <= i < |tree.expansions| ==> Printable(tree.expansions[i])
  {
  }

  lemma NothingInside(tree: Expansion)
    requires Options(tree) == []
    ensures tree == Expansion(tree.name, [], [])
  {
  }

  /** Reading a printed list of relations gives the list: nesting, columns and order survive. */
  lemma {:induction false} PrintedListParses(trees: seq<Expansion>)
    requires forall i :: 0 <= i < |trees| ==> Printable(trees[i])
    ensures ParseExpansions(Join(PrintEach(trees), ',')) == trees
    decreases trees, 1
  {
    hide IsSpace, Walk, Printable, SplitParts, Trim, Print;
    var texts := PrintEach(trees);
    var value := Join(texts, ',');
    EachTight(trees);
    WalkEach(trees, ',', 0);
    JoinedParts(texts, ',');
    if trees == [] {
      assert Trim(value) == "" by { EmptyTrims(); }
    } else {
      JoinTight(texts, ',');
      TightTrims(value);
      PartsFit("", value, ",", 0, false);
      assert SplitParts(value, ",") == texts;
      PartsBound(value);
      EachParses(trees, |value|);
    }
  }

  lemma EmptyTrims()
    ensures Trim("") == ""
  {
  }

  lemma PartsBound(value: string)
    ensures forall p :: p in SplitParts(value, ",") ==> |p| <= |value|
  {
    PartsFit("", value, ",", 0, false);
  }

  lemma {:induction false} EachParses(trees: seq<Expansion>, bound: nat)
    requires forall i :: 0 <= i < |trees| ==> Printable(trees[i])
    requires forall p :: p in PrintEach(trees) ==> |p| <= bound
    ensures ParseAll(PrintEach(trees), bound) == trees
    decreases trees, 0
  {
    hide ParseExpansion, Print, Printable;
    if trees != [] {
      var texts := PrintEach(trees);
      assert texts[0] in texts && texts[1..] == PrintEach(trees[1..]) && forall p :: p in texts[1..] ==> p in texts;
      PrintedParses(trees[0]);
      EachParses(trees[1..], bound);
    }
  }

  /** The text of a relation with one column and one relation below it, read back. */
  lemma OptionsAreRead(name: string, column: string, below: string)
    requires Name(name) && Name(column) && Name(below)
    ensures ParseExpansions(name + "($select=" + column + ";$expand=" + below + ")")
         == [Expansion(name, [column], [Expansion(below, [], [])])]
  {
    hide Name, ParseExpansions;
    var tree := Expansion(name, [column], [Expansion(below, [], [])]);
    assert Printable(tree.expansions[0]) && Printable(tree);
    PrintsAs(name, column, below);
    hide Print, Printable;
    assert PrintEach([tree]) == [Print(tree)] + PrintEach([tree][1..]) == [Print(tree)];
    PrintedListParses([tree]);
  }

  lemma PrintsAs(name: string, column: string, below: string)
    ensures Print(Expansion(name, [column], [Expansion(below, [], [])]))
         == name + "($select=" + column + ";$expand=" + below + ")"
  {
    var inner := Expansion(below, [], []);
    var tree := Expansion(name, [column], [inner]);
    assert PrintEach([inner]) == [Print(inner)] + PrintEach([inner][1..]) == [below];
    var options := ["$select=" + column, "$expand=" + below];
    assert Options(tree) == options;
    assert Join(options, ';') == options[0] + ";" + Join(options[1..], ';');
  }

  /** An option's value is the rest of the first option with its prefix; later ones and others are ignored. */
  lemma {:induction false} FirstOptionCounts(options: seq<string>, prefix: string, i: nat)
    requires |prefix| > 0 && i <= |options|
    requires forall j :: 0 <= j < i ==> !(prefix <= Trim(options[j]))
    ensures i < |options| && prefix <= Trim(options[i]) ==> prefix + OptionValue(options, prefix) == Trim(options[i])
    ensures i == |options| ==> OptionValue(options, prefix) == ""
    decreases i
  {
    hide Trim;
    if i > 0 {
      forall j | 0 <= j < i - 1 ensures !(prefix <= Trim(options[1..][j])) {
        assert options[1..][j] == options[j + 1];
      }
      FirstOptionCounts(options[1..], prefix, i - 1);
    }
  }
}
