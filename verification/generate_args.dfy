/** The `generate` command's variable arguments: `--set NAME=VALUE`,
    `--foreach NAME=[V1,V2,...]`, and the check in `main` that no variable
    name is given twice. */
module GenerateArgs {
  import opened Wrappers
  import opened Strings

  /** A parsed `--set` argument. */
  datatype Assignment = Assignment(name: string, value: string)

  /** A parsed `--foreach` argument: the name and its list of values. */
  datatype ForeachVar = ForeachVar(name: string, values: seq<string>)

  /** The `RuntimeError`s raised by the two parsers. `EmptyValueText` is the
      `IndexError` raised when the value text of a `--foreach` argument is
      empty after stripping. */
  datatype ArgError = MissingEquals | EmptyValueText | NoBrackets | NoValues

  /** `s` has a first `=` at position `i`. */
  predicate FirstEquals(s: string, i: nat) {
    i < |s| && s[i] == '=' && '=' !in s[..i]
  }

  lemma PartitionAtFirst(s: string)
    requires '=' in s
    ensures FirstEquals(s, |Partition(s, '=').before|)
    ensures Partition(s, '=').before == s[..|Partition(s, '=').before|]
    ensures Partition(s, '=').after == s[|Partition(s, '=').before| + 1..]
  {
    var p := Partition(s, '=');
    assert s == p.before + ['='] + p.after;
    assert s[..|p.before|] == p.before;
    assert s[|p.before| + 1..] == p.after;
  }

  /** `strip()` keeps a piece of its input, so it adds no character. */
  lemma StripKeeps(s: string, c: char)
    requires c !in s
    ensures c !in Strip(s)
  {
    var r := Strip(s);
    var a := LeadingSpaces(s);
    if a < |s| {
      var b := TrailingSpaces(s);
      assert r == s[a..|s| - b];
      forall k | 0 <= k < |r| ensures r[k] != c {
        assert r[k] == s[a + k];
      }
    }
  }

  /** A trimmed string strips to itself. */
  lemma StripTrimmed(t: string)
    requires Trimmed(t)
    ensures Strip(t) == t
  {
    StripPadded("", t, "");
    assert "" + t + "" == t;
  }

  /** `parse_arg_setvar`: without `=` the argument is rejected; otherwise
      both halves come back stripped, and the name holds no `=`. */
  function ParseSetVar(s: string): (r: Result<Assignment, ArgError>)
    ensures r.Err? <==> '=' !in s
    ensures r.Err? ==> r.error == MissingEquals
    ensures r.Ok? ==> Trimmed(r.value.name) && Trimmed(r.value.value) && '=' !in r.value.name
  {
    var parts := Partition(s, '=');
    if parts.sep == [] then Err(MissingEquals)
    else
      StripKeeps(parts.before, '=');
      Ok(Assignment(Strip(parts.before), Strip(parts.after)))
  }

  /** The split is at the first `=`: the name is the stripped text before
      it and the value the stripped text after it, which may hold further
      `=`. */
  lemma SetVarAtFirstEquals(s: string, i: nat)
    requires FirstEquals(s, i)
    ensures ParseSetVar(s) == Ok(Assignment(Strip(s[..i]), Strip(s[i + 1..])))
  {
    PartitionAtFirst(s);
    var p := Partition(s, '=');
    assert s == s[..i] + ['='] + s[i + 1..];
    PartitionSplitsAtFirst(p.before, p.after, s[..i], s[i + 1..]);
  }

  /** Whitespace around the name and the value is dropped, and nothing
      else: a spelled-out assignment parses back to its name and value. */
  lemma SetVarRoundTrip(a: string, name: string, b: string, c: string, value: string, d: string)
    requires AllSpace(a) && AllSpace(b) && AllSpace(c) && AllSpace(d)
    requires Trimmed(name) && Trimmed(value) && '=' !in name
    ensures ParseSetVar(a + name + b + "=" + c + value + d) == Ok(Assignment(name, value))
  {
    var s := a + name + b + "=" + c + value + d;
    var before := a + name + b;
    assert '=' !in a by { assert forall k | 0 <= k < |a| :: IsSpace(a[k]); }
    assert '=' !in b by { assert forall k | 0 <= k < |b| :: IsSpace(b[k]); }
    assert '=' !in before;
    assert s == before + ['='] + (c + value + d);
    var p := Partition(s, '=');
    assert p.before + ['='] + p.after == before + ['='] + (c + value + d);
    PartitionSplitsAtFirst(p.before, p.after, before, c + value + d);
    StripPadded(a, name, b);
    StripPadded(c, value, d);
  }

  /** Splitting at a separator absent from both left parts is unique. */
  lemma PartitionSplitsAtFirst(x: string, y: string, u: string, v: string)
    requires '=' !in x && '=' !in u
    requires x + ['='] + y == u + ['='] + v
    ensures x == u && y == v
  {
    PartitionFirst(x, y, '=');
    PartitionFirst(u, v, '=');
  }

  /** `[v.strip() for v in items]`. */
  function StripEach(items: seq<string>): (r: seq<string>)
    ensures |r| == |items|
    ensures forall k | 0 <= k < |r| :: r[k] == Strip(items[k])
  {
    if |items| == 0 then [] else [Strip(items[0])] + StripEach(items[1..])
  }

  /** `[v for v in items if len(v) > 0]`. Order and multiplicity are kept:
      see `DropEmptyAppend` and `DropEmptyOne`, which pin the result down. */
  function DropEmpty(items: seq<string>): (r: seq<string>)
    ensures |r| <= |items|
    ensures forall k | 0 <= k < |r| :: |r[k]| > 0 && r[k] in items
    ensures forall k | 0 <= k < |items| :: |items[k]| > 0 ==> items[k] in r
    ensures |r| == 0 <==> forall k | 0 <= k < |items| :: |items[k]| == 0
  {
    if |items| == 0 then []
    else
      var rest := DropEmpty(items[1..]);
      assert forall k | 1 <= k < |items| :: items[k] == items[1..][k - 1];
      if |items[0]| > 0 then [items[0]] + rest else rest
  }

  lemma {:induction false} DropEmptyKeeps(items: seq<string>)
    requires forall k | 0 <= k < |items| :: |items[k]| > 0
    ensures DropEmpty(items) == items
    decreases |items|
  {
    if |items| > 0 {
      DropEmptyKeeps(items[1..]);
      assert [items[0]] + items[1..] == items;
    }
  }

  /** Filtering a concatenation filters each part, in order. */
  lemma {:induction false} DropEmptyAppend(a: seq<string>, b: seq<string>)
    ensures DropEmpty(a + b) == DropEmpty(a) + DropEmpty(b)
    decreases |a|
  {
    if |a| == 0 {
      assert a + b == b;
    } else {
      assert (a + b)[0] == a[0] && (a + b)[1..] == a[1..] + b;
      DropEmptyAppend(a[1..], b);
    }
  }

  /** A single item is kept iff it is non-empty. */
  lemma DropEmptyOne(v: string)
    ensures DropEmpty([v]) == if |v| > 0 then [v] else []
  {
    assert [v][1..] == [];
  }

  /** Stripping a list strips its first item, then the rest. */
  lemma StripEachCons(x: string, rest: seq<string>)
    ensures StripEach([x] + rest) == [Strip(x)] + StripEach(rest)
  {
    assert ([x] + rest)[1..] == rest;
  }

  lemma StripEachTrimmed(items: seq<string>)
    requires forall k | 0 <= k < |items| :: Trimmed(items[k])
    ensures StripEach(items) == items
  {
    var r := StripEach(items);
    forall k | 0 <= k < |items| ensures r[k] == items[k] {
      StripTrimmed(items[k]);
    }
  }

  /** The items of a value list: a non-empty string, without whitespace at
      either end, and without a comma. */
  predicate ValidItem(v: string) {
    |v| > 0 && Trimmed(v) && ',' !in v
  }

  /** The value-list half of `parse_arg_foreach`, on the stripped text after
      the first `=`: it must be non-empty (else indexing it fails), start
      with `[` and end with `]`. What lies between is split at `,`, every
      piece stripped and the empty pieces dropped, in order; at least one
      must remain. */
  function ParseValueList(text: string): (r: Result<seq<string>, ArgError>)
    ensures r == Err(EmptyValueText) <==> |text| == 0
    ensures r == Err(NoBrackets) <==> |text| > 0 && (text[0] != '[' || text[|text| - 1] != ']')
    ensures r.Err? ==> r.error != MissingEquals
    ensures r == Err(NoValues) <==> |text| >= 2 && text[0] == '[' && text[|text| - 1] == ']' && BlankList(text[1..|text| - 1])
    ensures r.Ok? ==> |r.value| >= 1 && forall k | 0 <= k < |r.value| :: ValidItem(r.value[k])
  {
    if |text| == 0 then Err(EmptyValueText)
    else if text[0] != '[' || text[|text| - 1] != ']' then Err(NoBrackets)
    else
      var values := ListItems(text[1..|text| - 1]);
      if |values| == 0 then Err(NoValues) else Ok(values)
  }

  /** The items between the brackets: the `,`-separated pieces, stripped,
      with the empty ones dropped. */
  function ListItems(inner: string): (r: seq<string>)
    ensures forall k | 0 <= k < |r| :: ValidItem(r[k])
    ensures |r| == 0 <==> BlankList(inner)
  {
    var pieces := Split(inner, ',');
    var stripped := StripEach(pieces);
    forall k | 0 <= k < |stripped| ensures ',' !in stripped[k] {
      StripKeeps(pieces[k], ',');
    }
    assert BlankList(inner) <==> forall k | 0 <= k < |stripped| :: |stripped[k]| == 0 by {
      forall k | 0 <= k < |pieces| ensures |stripped[k]| == 0 <==> AllSpace(pieces[k]) {
        assert stripped[k] == Strip(pieces[k]);
      }
    }
    DropEmpty(stripped)
  }

  /** Every comma-separated piece of `inner` is whitespace only. */
  predicate BlankList(inner: string) {
    var pieces := Split(inner, ',');
    forall k | 0 <= k < |pieces| :: AllSpace(pieces[k])
  }

  lemma ListItemsOfJoin(items: seq<string>)
    requires |items| >= 1 && forall k | 0 <= k < |items| :: ValidItem(items[k])
    ensures ListItems(Join(items, ',')) == items
  {
    SplitJoin(items, ',');
    StripEachTrimmed(items);
    DropEmptyKeeps(items);
  }

  /** A piece without a comma gives its stripped text, unless that is
      empty. */
  lemma ListItemsOfPiece(p: string)
    requires ',' !in p
    ensures ListItems(p) == if AllSpace(p) then [] else [Strip(p)]
  {
    SplitNoSeparator(p, ',');
    assert StripEach([p]) == [Strip(p)];
    DropEmptyOne(Strip(p));
  }

  /** The items of a list are those of its first piece followed by those of
      the rest. */
  lemma ListItemsAtComma(x: string, y: string)
    requires ',' !in x
    ensures ListItems(x + [','] + y) == ListItems(x) + ListItems(y)
  {
    SplitAfterPiece(x, y, ',');
    SplitNoSeparator(x, ',');
    StripEachCons(x, Split(y, ','));
    assert StripEach([x]) == [Strip(x)];
    DropEmptyAppend([Strip(x)], StripEach(Split(y, ',')));
  }

  /** One comma-separated piece of a value list as a user may write it:
      whitespace only, or one item with whitespace around it. */
  datatype Piece = Blank(space: string) | Padded(before: string, item: string, after: string)

  predicate WellFormedPiece(p: Piece) {
    match p
    case Blank(space) => AllSpace(space)
    case Padded(before, item, after) => AllSpace(before) && ValidItem(item) && AllSpace(after)
  }

  function PieceText(p: Piece): string {
    match p
    case Blank(space) => space
    case Padded(before, item, after) => before + item + after
  }

  function PieceTexts(ps: seq<Piece>): (r: seq<string>)
    ensures |r| == |ps|
    ensures forall k | 0 <= k < |ps| :: r[k] == PieceText(ps[k])
  {
    seq(|ps|, k requires 0 <= k < |ps| => PieceText(ps[k]))
  }

  /** The items the pieces hold, in order. */
  function PieceItems(ps: seq<Piece>): seq<string> {
    if |ps| == 0 then []
    else (if ps[0].Padded? then [ps[0].item] else []) + PieceItems(ps[1..])
  }

  /** Whitespace is not a comma. */
  lemma SpaceHasNoComma(s: string)
    requires AllSpace(s)
    ensures ',' !in s
  {
    assert forall k | 0 <= k < |s| :: IsSpace(s[k]);
  }

  /** A well-formed piece has no comma and gives its item, if any. */
  lemma PieceListItems(p: Piece)
    requires WellFormedPiece(p)
    ensures ',' !in PieceText(p)
    ensures ListItems(PieceText(p)) == if p.Padded? then [p.item] else []
  {
    match p
    case Blank(space) =>
      SpaceHasNoComma(space);
      ListItemsOfPiece(space);
    case Padded(before, item, after) =>
      SpaceHasNoComma(before);
      SpaceHasNoComma(after);
      var t := before + item + after;
      assert t[|before|] == item[0];
      assert !AllSpace(t);
      StripPadded(before, item, after);
      ListItemsOfPiece(t);
  }

  /** Whitespace around each item and whitespace-only pieces between them
      are dropped, and nothing else: the items come back in order, with
      their repetitions. */
  lemma {:induction false} ListItemsOfPieces(ps: seq<Piece>)
    requires forall k | 0 <= k < |ps| :: WellFormedPiece(ps[k])
    ensures ListItems(Join(PieceTexts(ps), ',')) == PieceItems(ps)
    decreases |ps|
  {
    var ts := PieceTexts(ps);
    if |ps| == 0 {
      ListItemsOfPiece("");
    } else {
      PieceListItems(ps[0]);
      if |ps| == 1 {
        assert Join(ts, ',') == PieceText(ps[0]);
        assert ps[1..] == [];
      } else {
        assert ts[1..] == PieceTexts(ps[1..]);
        ListItemsOfPieces(ps[1..]);
        ListItemsAtComma(ts[0], Join(ts[1..], ','));
      }
    }
  }

  /** A bracketed value list as a user may write it is accepted with exactly
      its items, or rejected as empty when it holds none. */
  lemma ValueListOfPieces(ps: seq<Piece>)
    requires forall k | 0 <= k < |ps| :: WellFormedPiece(ps[k])
    ensures ParseValueList("[" + Join(PieceTexts(ps), ',') + "]")
      == if |PieceItems(ps)| == 0 then Err(NoValues) else Ok(PieceItems(ps))
  {
    var inner := Join(PieceTexts(ps), ',');
    var text := "[" + inner + "]";
    assert text[0] == '[' && text[|text| - 1] == ']';
    assert text[1..|text| - 1] == inner;
    ListItemsOfPieces(ps);
  }

  /** `parse_arg_foreach`: without `=` the argument is rejected; otherwise
      the name comes back stripped and without `=` (the list is described
      by `ForeachValuesValid`). */
  function ParseForeach(s: string): (r: Result<ForeachVar, ArgError>)
    ensures r == Err(MissingEquals) <==> '=' !in s
    ensures r.Ok? ==> Trimmed(r.value.name) && '=' !in r.value.name
  {
    var parts := Partition(s, '=');
    if parts.sep == [] then Err(MissingEquals)
    else
      StripKeeps(parts.before, '=');
      WithName(Strip(parts.before), ParseValueList(Strip(parts.after)))
  }

  /** Attach the name to a parsed list, passing a list error through. */
  function WithName(name: string, list: Result<seq<string>, ArgError>): Result<ForeachVar, ArgError> {
    match list
    case Err(e) => Err(e)
    case Ok(values) => Ok(ForeachVar(name, values))
  }

  /** An accepted list holds at least one item, and every item is
      non-empty, stripped and free of commas. */
  lemma ForeachValuesValid(s: string)
    requires ParseForeach(s).Ok?
    ensures |ParseForeach(s).value.values| >= 1
    ensures forall k | 0 <= k < |ParseForeach(s).value.values| :: ValidItem(ParseForeach(s).value.values[k])
  {
    var parts := Partition(s, '=');
    var list := ParseValueList(Strip(parts.after));
    assert ParseForeach(s) == WithName(Strip(parts.before), list);
    assert ParseForeach(s).value.values == list.value;
  }

  /** The split is at the first `=`: the name is the stripped text before
      it, the list is read from the stripped text after it, and a text that
      is all whitespace is the indexing failure. */
  lemma ForeachAtFirstEquals(s: string, i: nat)
    requires FirstEquals(s, i)
    ensures ParseForeach(s) == WithName(Strip(s[..i]), ParseValueList(Strip(s[i + 1..])))
    ensures ParseForeach(s) == Err(EmptyValueText) <==> AllSpace(s[i + 1..])
  {
    PartitionAtFirst(s);
    var p := Partition(s, '=');
    assert s == s[..i] + ['='] + s[i + 1..];
    PartitionSplitsAtFirst(p.before, p.after, s[..i], s[i + 1..]);
  }

  /** A value list spelled out in the form the parser documents parses back
      to its name and items. */
  lemma ForeachRoundTrip(name: string, items: seq<string>)
    requires Trimmed(name) && '=' !in name
    requires |items| >= 1 && forall k | 0 <= k < |items| :: ValidItem(items[k])
    ensures ParseForeach(name + "=[" + Join(items, ',') + "]") == Ok(ForeachVar(name, items))
  {
    ForeachSpelled(name, Join(items, ','));
    ValueListRoundTrip(items);
  }

  lemma ForeachSpelled(name: string, inner: string)
    requires Trimmed(name) && '=' !in name
    ensures ParseForeach(name + "=[" + inner + "]") == WithName(name, ParseValueList("[" + inner + "]"))
  {
    var text := "[" + inner + "]";
    assert Trimmed(text) by {
      assert text[0] == '[' && text[|text| - 1] == ']';
    }
    StripTrimmed(text);
    StripTrimmed(name);
    var s := name + "=[" + inner + "]";
    assert s == name + ['='] + text;
    AroundSeparator(name, '=', text);
    ForeachAtFirstEquals(s, |name|);
  }

  lemma ValueListRoundTrip(items: seq<string>)
    requires |items| >= 1 && forall k | 0 <= k < |items| :: ValidItem(items[k])
    ensures ParseValueList("[" + Join(items, ',') + "]") == Ok(items)
  {
    var inner := Join(items, ',');
    var text := "[" + inner + "]";
    assert text[0] == '[' && text[|text| - 1] == ']';
    assert text[1..|text| - 1] == inner;
    ListItemsOfJoin(items);
  }

  /** The report printed before the exit when a name is given twice, as
      corrected: it names the variable. As written, generate.py:371 and :383
      lack the `f` prefix and print the placeholder `{name}` instead; that
      version is `Findings.DuplicateMessageAsWritten`. */
  function DuplicateMessage(name: string): (r: string)
    ensures |r| == |DuplicatePrefix| + |name| + |DuplicateSuffix|
    ensures r[..|DuplicatePrefix|] == DuplicatePrefix
    ensures r[|r| - |DuplicateSuffix|..] == DuplicateSuffix
    ensures r[|DuplicatePrefix|..|r| - |DuplicateSuffix|] == name
  {
    var r := DuplicatePrefix + name + DuplicateSuffix;
    assert r[..|DuplicatePrefix|] == DuplicatePrefix;
    assert r[|DuplicatePrefix|..|r| - |DuplicateSuffix|] == name;
    r
  }

  const DuplicatePrefix: string := "ERROR:  variable \""
  const DuplicateSuffix: string := "\" specified multiple times"

  /** The report determines the variable: different names give different
      reports. */
  lemma DuplicateMessageNamesVariable(a: string, b: string)
    requires DuplicateMessage(a) == DuplicateMessage(b)
    ensures a == b
  {
    var m := DuplicateMessage(a);
    assert a == m[|DuplicatePrefix|..|m| - |DuplicateSuffix|];
  }

  /** What the process reports for a collection failure, with the corrected
      duplicate-name report: a repeated name is reported by name (as written
      the placeholder `{name}` is printed instead); a malformed argument
      raises, and its traceback is not modelled. */
  function Report(e: CollectError): (r: Option<string>)
    ensures r.Some? <==> e.Duplicate?
    ensures e.Duplicate? ==> r == Some(DuplicateMessage(e.name))
  {
    match e
    case Duplicate(name) => Some(DuplicateMessage(name))
    case BadArgument(_) => None
  }

  /** Every variable name occurs once. */
  predicate Distinct(names: seq<string>) {
    forall i, j | 0 <= i < j < |names| :: names[i] != names[j]
  }

  /** All the parsed variables of one run: the `--set` values by name, and
      the `--foreach` lists in command-line order. */
  datatype Variables = Variables(cmdline: map<string, string>, foreach: seq<ForeachVar>)

  /** Why variable collection stops: a malformed argument (an exception
      nobody catches), or a name given twice (`sys.exit(1)`). Both end the
      process with status 1. */
  datatype CollectError = BadArgument(error: ArgError) | Duplicate(name: string)

  /** The names the arguments give, `--set` ones first, when every argument
      parses. */
  function GivenNames(sets: seq<Assignment>, foreaches: seq<ForeachVar>): (names: seq<string>)
    ensures |names| == |sets| + |foreaches|
    ensures forall k | 0 <= k < |sets| :: names[k] == sets[k].name
    ensures forall k | 0 <= k < |foreaches| :: names[|sets| + k] == foreaches[k].name
  {
    SetNames(sets) + ForeachNames(foreaches)
  }

  function SetNames(sets: seq<Assignment>): (names: seq<string>)
    ensures |names| == |sets|
    ensures forall k | 0 <= k < |sets| :: names[k] == sets[k].name
  {
    seq(|sets|, k requires 0 <= k < |sets| => sets[k].name)
  }

  function ForeachNames(foreaches: seq<ForeachVar>): (names: seq<string>)
    ensures |names| == |foreaches|
    ensures forall k | 0 <= k < |foreaches| :: names[k] == foreaches[k].name
  {
    if |foreaches| == 0 then [] else ForeachNames(foreaches[..|foreaches| - 1]) + [foreaches[|foreaches| - 1].name]
  }

  /** Every argument of a list parsed. */
  predicate AllOk<T>(rs: seq<Result<T, ArgError>>) {
    forall k | 0 <= k < |rs| :: rs[k].Ok?
  }

  /** The parsed values of a list whose arguments all parsed. */
  function Values<T>(rs: seq<Result<T, ArgError>>): (r: seq<T>)
    requires AllOk(rs)
    ensures |r| == |rs|
    ensures forall k | 0 <= k < |rs| :: rs[k] == Ok(r[k])
  {
    if |rs| == 0 then [] else Values(rs[..|rs| - 1]) + [rs[|rs| - 1].value]
  }

  /** The parse results of the `--set` arguments, in order. */
  function ParseSets(args: seq<string>): (r: seq<Result<Assignment, ArgError>>)
    ensures |r| == |args|
    ensures forall k | 0 <= k < |args| :: r[k] == ParseSetVar(args[k])
  {
    seq(|args|, k requires 0 <= k < |args| => ParseSetVar(args[k]))
  }

  /** The parse results of the `--foreach` arguments, in order. */
  function ParseForeaches(args: seq<string>): (r: seq<Result<ForeachVar, ArgError>>)
    ensures |r| == |args|
    ensures forall k | 0 <= k < |args| :: r[k] == ParseForeach(args[k])
  {
    seq(|args|, k requires 0 <= k < |args| => ParseForeach(args[k]))
  }

  /** Parsed arguments are accepted: all parsed, and no name is given
      twice. */
  predicate AcceptedParsed(ps: seq<Result<Assignment, ArgError>>, pf: seq<Result<ForeachVar, ArgError>>) {
    AllOk(ps) && AllOk(pf) && Distinct(GivenNames(Values(ps), Values(pf)))
  }

  /** The command line is accepted: every `--set` and `--foreach` argument
      parses and no variable name is given twice. */
  predicate Accepted(setArgs: seq<string>, foreachArgs: seq<string>) {
    AcceptedParsed(ParseSets(setArgs), ParseForeaches(foreachArgs))
  }

  /** The set of the names in a list. */
  function Elements(names: seq<string>): set<string> {
    if |names| == 0 then {} else Elements(names[..|names| - 1]) + {names[|names| - 1]}
  }

  lemma {:induction false} ElementsMembership(names: seq<string>, x: string)
    ensures x in Elements(names) <==> x in names
    decreases |names|
  {
    if |names| > 0 {
      var init := names[..|names| - 1];
      ElementsMembership(init, x);
      assert names == init + [names[|names| - 1]];
    }
  }

  lemma ElementsSnoc(names: seq<string>, x: string)
    ensures Elements(names + [x]) == Elements(names) + {x}
  {
    assert (names + [x])[..|names|] == names;
  }

  /** The `--set` values by name. */
  predicate SetTable(cmdline: map<string, string>, sets: seq<Assignment>) {
    && cmdline.Keys == Elements(SetNames(sets))
    && forall k | 0 <= k < |sets| :: sets[k].name in cmdline && cmdline[sets[k].name] == sets[k].value
  }

  /** The `--set` loop of `main` over the arguments' parse results: record
      each name and value, stopping at the first argument that did not
      parse or whose name was already seen. It succeeds exactly when every
      argument parses and the names are distinct, and then holds the values
      by name. */
  method CollectSets(ps: seq<Result<Assignment, ArgError>>)
    returns (r: Result<seq<Assignment>, CollectError>, cmdline: map<string, string>)
    ensures r.Ok? <==> AllOk(ps) && Distinct(SetNames(Values(ps)))
    ensures r.Ok? ==> r.value == Values(ps) && SetTable(cmdline, r.value)
    ensures r.Err? && r.error.BadArgument? ==> Err(r.error.error) in ps
  {
    var seen: set<string> := {};
    cmdline := map[];
    var sets: seq<Assignment> := [];
    for i := 0 to |ps|
      invariant SetsSoFar(ps, i, sets, seen, cmdline)
    {
      if ps[i].Err? {
        return Err(BadArgument(ps[i].error)), cmdline;
      }
      var a := ps[i].value;
      if a.name in seen {
        SetsDuplicate(ps, i, sets, seen, cmdline);
        return Err(Duplicate(a.name)), cmdline;
      }
      SetsStep(ps, i, sets, seen, cmdline);
      cmdline := cmdline[a.name := a.value];
      sets := sets + [a];
      seen := seen + {a.name};
    }
    SetsDone(ps, sets, seen, cmdline);
    return Ok(sets), cmdline;
  }

  /** The state of the `--set` loop after `i` arguments: all of them
      parsed, with distinct names, each recorded in the table. */
  ghost predicate SetsSoFar(ps: seq<Result<Assignment, ArgError>>, i: nat, sets: seq<Assignment>,
                            seen: set<string>, cmdline: map<string, string>)
  {
    && i <= |ps| && |sets| == i
    && (forall k | 0 <= k < i :: ps[k] == Ok(sets[k]))
    && Distinct(SetNames(sets)) && seen == Elements(SetNames(sets))
    && SetTable(cmdline, sets)
  }

  lemma SetsStep(ps: seq<Result<Assignment, ArgError>>, i: nat, sets: seq<Assignment>,
                 seen: set<string>, cmdline: map<string, string>)
    requires SetsSoFar(ps, i, sets, seen, cmdline) && i < |ps| && ps[i].Ok? && ps[i].value.name !in seen
    ensures SetsSoFar(ps, i + 1, sets + [ps[i].value], seen + {ps[i].value.name},
                      cmdline[ps[i].value.name := ps[i].value.value])
  {
    var a := ps[i].value;
    var names := SetNames(sets);
    ElementsMembership(names, a.name);
    SetTableSnoc(cmdline, sets, a);
    ElementsSnoc(names, a.name);
    DistinctSnoc(names, a.name);
    assert forall k | 0 <= k < i + 1 :: ps[k] == Ok((sets + [a])[k]);
  }

  lemma SetsDuplicate(ps: seq<Result<Assignment, ArgError>>, i: nat, sets: seq<Assignment>,
                      seen: set<string>, cmdline: map<string, string>)
    requires SetsSoFar(ps, i, sets, seen, cmdline) && i < |ps| && ps[i].Ok? && ps[i].value.name in seen
    ensures !(AllOk(ps) && Distinct(SetNames(Values(ps))))
  {
    var names := SetNames(sets);
    ElementsMembership(names, ps[i].value.name);
    var k :| 0 <= k < i && names[k] == ps[i].value.name;
    SetDuplicateRejected(ps, k, i);
  }

  lemma SetsDone(ps: seq<Result<Assignment, ArgError>>, sets: seq<Assignment>,
                 seen: set<string>, cmdline: map<string, string>)
    requires SetsSoFar(ps, |ps|, sets, seen, cmdline)
    ensures AllOk(ps) && sets == Values(ps)
  {
    assert AllOk(ps);
    assert sets == Values(ps);
  }

  /** The `--foreach` loop of `main`, after the `--set` loop accepted
      `sets`: record each name, stopping at the first argument that did not
      parse or whose name was already seen, among the `--set` names or the
      earlier `--foreach` names. It succeeds exactly when every argument
      parses and all the names are distinct, and then keeps the lists in
      order. */
  method CollectForeaches(sets: seq<Assignment>, pf: seq<Result<ForeachVar, ArgError>>)
    returns (r: Result<seq<ForeachVar>, CollectError>)
    requires Distinct(SetNames(sets))
    ensures r.Ok? <==> AllOk(pf) && Distinct(GivenNames(sets, Values(pf)))
    ensures r.Ok? ==> r.value == Values(pf)
    ensures r.Err? && r.error.BadArgument? ==> Err(r.error.error) in pf
  {
    var seen := Elements(SetNames(sets));
    var foreaches: seq<ForeachVar> := [];
    assert GivenNames(sets, []) == SetNames(sets);
    for i := 0 to |pf|
      invariant ForeachesSoFar(sets, pf, i, foreaches, seen)
    {
      if pf[i].Err? {
        return Err(BadArgument(pf[i].error));
      }
      var fv := pf[i].value;
      if fv.name in seen {
        ElementsMembership(GivenNames(sets, foreaches), fv.name);
        ForeachDuplicateRejected(sets, pf, foreaches, i);
        return Err(Duplicate(fv.name));
      }
      ForeachesStep(sets, pf, i, foreaches, seen);
      foreaches := foreaches + [fv];
      seen := seen + {fv.name};
    }
    assert foreaches == Values(pf);
    return Ok(foreaches);
  }

  /** The state of the `--foreach` loop after `i` arguments: all of them
      parsed, and no name given twice among the `--set` names and theirs. */
  ghost predicate ForeachesSoFar(sets: seq<Assignment>, pf: seq<Result<ForeachVar, ArgError>>, i: nat,
                                 foreaches: seq<ForeachVar>, seen: set<string>)
  {
    && i <= |pf| && |foreaches| == i
    && (forall k | 0 <= k < i :: pf[k] == Ok(foreaches[k]))
    && Distinct(GivenNames(sets, foreaches)) && seen == Elements(GivenNames(sets, foreaches))
  }

  lemma ForeachesStep(sets: seq<Assignment>, pf: seq<Result<ForeachVar, ArgError>>, i: nat,
                      foreaches: seq<ForeachVar>, seen: set<string>)
    requires ForeachesSoFar(sets, pf, i, foreaches, seen) && i < |pf| && pf[i].Ok? && pf[i].value.name !in seen
    ensures ForeachesSoFar(sets, pf, i + 1, foreaches + [pf[i].value], seen + {pf[i].value.name})
  {
    var fv := pf[i].value;
    var names := GivenNames(sets, foreaches);
    ElementsMembership(names, fv.name);
    GivenNamesSnoc(sets, foreaches, fv);
    ElementsSnoc(names, fv.name);
    DistinctSnoc(names, fv.name);
    assert forall k | 0 <= k < i + 1 :: pf[k] == Ok((foreaches + [fv])[k]);
  }

  /** Adding a new name to the table keeps the earlier entries. */
  lemma SetTableSnoc(cmdline: map<string, string>, sets: seq<Assignment>, a: Assignment)
    requires SetTable(cmdline, sets) && a.name !in SetNames(sets)
    ensures SetNames(sets + [a]) == SetNames(sets) + [a.name]
    ensures SetTable(cmdline[a.name := a.value], sets + [a])
  {
    assert (sets + [a])[..|sets|] == sets;
    ElementsSnoc(SetNames(sets), a.name);
    var t := cmdline[a.name := a.value];
    forall k | 0 <= k < |sets| + 1
      ensures (sets + [a])[k].name in t && t[(sets + [a])[k].name] == (sets + [a])[k].value
    {
      if k < |sets| {
        assert SetNames(sets)[k] == sets[k].name;
      }
    }
  }

  lemma GivenNamesSnoc(sets: seq<Assignment>, foreaches: seq<ForeachVar>, fv: ForeachVar)
    ensures GivenNames(sets, foreaches + [fv]) == GivenNames(sets, foreaches) + [fv.name]
  {
  }

  lemma DistinctSnoc(names: seq<string>, x: string)
    requires Distinct(names) && x !in names
    ensures Distinct(names + [x])
  {
  }

  /** Both variable loops of `main` over the arguments' parse results.
      Collection succeeds exactly when every argument parses and the names
      are all distinct; then the `--set` values are looked up by name and
      the `--foreach` lists keep their order. A reported parse error is the
      error of one of the arguments. */
  method CollectParsed(ps: seq<Result<Assignment, ArgError>>, pf: seq<Result<ForeachVar, ArgError>>)
    returns (r: Result<Variables, CollectError>)
    ensures r.Ok? <==> AcceptedParsed(ps, pf)
    ensures r.Ok? ==> r.value.foreach == Values(pf) && SetTable(r.value.cmdline, Values(ps))
    ensures r.Err? && r.error.BadArgument? ==> Err(r.error.error) in ps || Err(r.error.error) in pf
  {
    var sets, cmdline := CollectSets(ps);
    if sets.Err? {
      if AcceptedParsed(ps, pf) {
        SetNamesDistinct(Values(ps), Values(pf));
      }
      return Err(sets.error);
    }
    var foreaches := CollectForeaches(sets.value, pf);
    if foreaches.Err? {
      return Err(foreaches.error);
    }
    return Ok(Variables(cmdline, foreaches.value));
  }

  /** The `--set` names are among all the names, so they are distinct when
      all the names are. */
  lemma SetNamesDistinct(sets: seq<Assignment>, foreaches: seq<ForeachVar>)
    requires Distinct(GivenNames(sets, foreaches))
    ensures Distinct(SetNames(sets))
  {
    var names := GivenNames(sets, foreaches);
    forall i, j | 0 <= i < j < |sets| ensures SetNames(sets)[i] != SetNames(sets)[j] {
      assert names[i] != names[j];
    }
  }

  /** Two `--set` arguments with the same name make the `--set` names
      repeat. */
  lemma SetDuplicateRejected(ps: seq<Result<Assignment, ArgError>>, k: nat, i: nat)
    requires k < i < |ps| && ps[k].Ok? && ps[i].Ok?
    requires ps[k].value.name == ps[i].value.name
    ensures !(AllOk(ps) && Distinct(SetNames(Values(ps))))
  {
    if AllOk(ps) {
      var names := SetNames(Values(ps));
      assert names[k] == names[i];
    }
  }

  /** A `--foreach` name already given by a `--set` argument or an earlier
      `--foreach` argument makes the names repeat. */
  lemma ForeachDuplicateRejected(sets: seq<Assignment>, pf: seq<Result<ForeachVar, ArgError>>, foreaches: seq<ForeachVar>, i: nat)
    requires i < |pf| && |foreaches| == i && pf[i].Ok?
    requires forall k | 0 <= k < i :: pf[k] == Ok(foreaches[k])
    requires pf[i].value.name in GivenNames(sets, foreaches)
    ensures !(AllOk(pf) && Distinct(GivenNames(sets, Values(pf))))
  {
    if AllOk(pf) {
      var earlier := GivenNames(sets, foreaches);
      var names := GivenNames(sets, Values(pf));
      var j :| 0 <= j < |earlier| && earlier[j] == pf[i].value.name;
      if j >= |sets| {
        assert Values(pf)[j - |sets|] == foreaches[j - |sets|];
      }
      assert names[j] == earlier[j];
      assert names[|sets| + i] == pf[i].value.name;
    }
  }

  /** The variable loops of `main` on the command line: each argument is
      parsed in turn, so the outcome is that of the loops over the parse
      results. */
  method CollectVariables(setArgs: seq<string>, foreachArgs: seq<string>) returns (r: Result<Variables, CollectError>)
    ensures r.Ok? <==> Accepted(setArgs, foreachArgs)
    ensures r.Ok? ==> |r.value.foreach| == |foreachArgs|
    ensures r.Ok? ==> forall k | 0 <= k < |foreachArgs| :: ParseForeach(foreachArgs[k]) == Ok(r.value.foreach[k])
    ensures r.Ok? ==> SetTable(r.value.cmdline, Values(ParseSets(setArgs)))
  {
    r := CollectParsed(ParseSets(setArgs), ParseForeaches(foreachArgs));
  }
}
