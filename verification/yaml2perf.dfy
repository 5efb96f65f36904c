/** The `yaml2perf` script: a nested lookup through a parsed YAML document,
    and the tab-separated table with one row per document and a header
    naming the looked-up paths.

    The YAML parser is not modelled; the parsed document is the input. */
module Yaml2Perf {
  import opened Wrappers
  import opened Strings

  /** A parsed YAML value. `Other` stands for any value the lookup does not
      walk into (a float, a list, a date, ...), carrying the text `str()`
      gives for it; a mapping carries its `str()` text as well, since that
      text follows the document's key order, which a map does not keep. */
  datatype Value =
    | Null
    | Bool(b: bool)
    | Int(i: int)
    | Str(s: string)
    | Mapping(entries: map<string, Value>, text: string)
    | Other(text: string)

  /** Decimal digits of a natural number. */
  function Digits(n: nat): (r: string)
    ensures |r| >= 1
    ensures forall k | 0 <= k < |r| :: '0' <= r[k] <= '9'
  {
    var d := [(('0' as int) + n % 10) as char];
    if n < 10 then d else Digits(n / 10) + d
  }

  /** Python's `str()` of a value. */
  function PyStr(v: Value): string {
    match v
    case Null => "None"
    case Bool(b) => if b then "True" else "False"
    case Int(i) => if i < 0 then "-" + Digits(-i) else Digits(i)
    case Str(s) => s
    case Mapping(_, text) => text
    case Other(text) => text
  }

  /** Every step of the path except possibly the last is taken from a
      mapping: `.get` on anything else would raise, which the script does
      not handle. A step that finds nothing ends the walk early, so what
      lies behind it is not constrained. */
  predicate Walkable(data: Value, path: seq<string>)
    decreases |path|
  {
    |path| == 0 ||
    (data.Mapping? &&
     (path[0] in data.entries && data.entries[path[0]] != Null ==> Walkable(data.entries[path[0]], path[1..])))
  }

  /** The value reached along the path, or `None` as soon as a step's
      `.get` yields `None`, whether the key is absent or its value is
      null. */
  function Lookup(data: Value, path: seq<string>): (r: Option<Value>)
    requires Walkable(data, path)
    ensures r.Some? ==> r.value != Null || |path| == 0
    decreases |path|
  {
    if |path| == 0 then Some(data)
    else if path[0] !in data.entries || data.entries[path[0]] == Null then None
    else Lookup(data.entries[path[0]], path[1..])
  }

  /** `get_value`: `missing` when the walk ends early, otherwise `str()`
      of the value reached. */
  function GetValue(data: Value, path: seq<string>, missing: string): (r: string)
    requires Walkable(data, path)
    ensures Lookup(data, path).None? ==> r == missing
    ensures Lookup(data, path).Some? ==> r == PyStr(Lookup(data, path).value)
  {
    match Lookup(data, path)
    case None => missing
    case Some(v) => PyStr(v)
  }

  /** `get_value` with its default: a missing value reads as the empty
      string. */
  function GetValueOrEmpty(data: Value, path: seq<string>): (r: string)
    requires Walkable(data, path)
    ensures Lookup(data, path).None? ==> r == ""
  {
    GetValue(data, path, "")
  }

  /** The walk is step by step: looking up `p + q` is looking up `q` from
      where `p` leads, and stops where `p` stops. */
  lemma {:induction false} LookupAppend(data: Value, p: seq<string>, q: seq<string>)
    requires Walkable(data, p + q)
    ensures Walkable(data, p)
    ensures Lookup(data, p).Some? ==> Walkable(Lookup(data, p).value, q)
    ensures Lookup(data, p + q) == (if Lookup(data, p).None? then None else Lookup(Lookup(data, p).value, q))
    decreases |p|
  {
    if |p| > 0 {
      assert (p + q)[0] == p[0] && (p + q)[1..] == p[1..] + q;
      if p[0] in data.entries && data.entries[p[0]] != Null {
        LookupAppend(data.entries[p[0]], p[1..], q);
      }
    } else {
      assert p + q == q;
    }
  }

  /** With no steps, the document itself is shown. */
  lemma GetValueOfEmptyPath(data: Value, missing: string)
    ensures GetValue(data, [], missing) == PyStr(data)
  {
  }

  /** One more step of the walk: a walk that stopped along `path` stays
      stopped; otherwise the last step is `.get(key)` on the mapping
      reached, and it finds the key's value unless the key is absent or its
      value is null. With `GetValueOfEmptyPath` this pins `get_value` down
      for every path. */
  lemma GetValueStep(data: Value, path: seq<string>, key: string, missing: string)
    requires Walkable(data, path + [key])
    ensures Walkable(data, path)
    ensures Lookup(data, path).Some? ==> Lookup(data, path).value.Mapping?
    ensures Lookup(data, path).None? ==> GetValue(data, path + [key], missing) == missing
    ensures Lookup(data, path).Some? ==>
      var m := Lookup(data, path).value.entries;
      GetValue(data, path + [key], missing) == if key in m && m[key] != Null then PyStr(m[key]) else missing
  {
    LookupAppend(data, path, [key]);
    if Lookup(data, path).Some? {
      var v := Lookup(data, path).value;
      assert [key][1..] == [];
      if key in v.entries && v.entries[key] != Null {
        assert Lookup(v, [key]) == Lookup(v.entries[key], []);
      }
    }
  }

  /** A present value is reported, even when Python would call it false
      (`0`, `""`, `False`, an empty mapping): when the walk along `path`
      reaches a mapping holding a non-null value at `key`, that value's
      `str()` is shown. */
  lemma PresentValueReported(data: Value, path: seq<string>, m: map<string, Value>, text: string, key: string, missing: string)
    requires Walkable(data, path + [key]) && Walkable(data, path)
    requires Lookup(data, path) == Some(Mapping(m, text))
    requires key in m && m[key] != Null
    ensures GetValue(data, path + [key], missing) == PyStr(m[key])
  {
    GetValueStep(data, path, key, missing);
  }

  /** An early stop along `path`, an absent key and a null value all read
      as missing; with `PresentValueReported` these are the only ways. The
      second requirement is implied by the first and is stated so that the
      third can mention the walk along `path`. */
  lemma AbsentOrNullMissing(data: Value, path: seq<string>, key: string, missing: string)
    requires Walkable(data, path + [key]) && Walkable(data, path)
    requires Lookup(data, path).None? ||
             (Lookup(data, path).value.Mapping? &&
              (key !in Lookup(data, path).value.entries || Lookup(data, path).value.entries[key] == Null))
    ensures GetValue(data, path + [key], missing) == missing
  {
    GetValueStep(data, path, key, missing);
  }

  /** The falsy values of Python are not missing. */
  lemma FalsyValuesShown(key: string)
    ensures GetValueOrEmpty(Mapping(map[key := Int(0)], "{}"), [key]) == "0"
    ensures GetValueOrEmpty(Mapping(map[key := Bool(false)], "{}"), [key]) == "False"
    ensures GetValueOrEmpty(Mapping(map[key := Mapping(map[], "{}")], "{}"), [key]) == "{}"
  {
    assert [] + [key] == [key];
    PresentValueReported(Mapping(map[key := Int(0)], "{}"), [], map[key := Int(0)], "{}", key, "");
    PresentValueReported(Mapping(map[key := Bool(false)], "{}"), [], map[key := Bool(false)], "{}", key, "");
    PresentValueReported(Mapping(map[key := Mapping(map[], "{}")], "{}"), [], map[key := Mapping(map[], "{}")], "{}", key, "");
    assert Digits(0) == "0";
  }

  /** The looked-up paths, in column order. */
  const PerfData: seq<seq<string>> := [
    ["grid", "number of  tetrahedra selected"],
    ["grid", "number of reducible k-points"],
    ["grid", "number of irreducible k-points"],
    ["scatter parallelization", "total number of q-points"],
    ["scatter parallelization", "total number of (k,q) pairs"],
    ["memory", "physical"],
    ["memory", "max rss"],
    ["memory", "gpu in-use"],
    ["kq_pair [intermediate]", "bytes per entry"],
    ["kq_pair [intermediate]", "total bytes allocated"],
    ["scat", "bytes per entry"],
    ["scat", "total bytes allocated"],
    ["scatter", "bytes per entry"],
    ["scatter", "total bytes allocated"],
    ["scatter_channels", "bytes per entry"],
    ["scatter_channels", "total bytes allocated"],
    ["scatter_paths [intermediate]", "bytes per entry"],
    ["scatter_paths [intermediate]", "total bytes allocated"],
    ["scatter_targets", "bytes per entry"],
    ["scatter_targets", "total bytes allocated"],
    ["scattgts_sources", "bytes per entry"],
    ["scattgts_sources", "total bytes allocated"],
    ["timings", "scat_setup", "wall"],
    ["timings", "target_setup", "wall"],
    ["timings", "dynamics_tot", "wall"],
    ["timings", "dynamics_col", "wall"],
    ["timings", "dynamics_col", "calls"]
  ]

  /** The document can be walked along every looked-up path. */
  predicate WalkableDocument(data: Value) {
    forall k | 0 <= k < |PerfData| :: Walkable(data, PerfData[k])
  }

  /** `yaml2perf`: the file's base name, then one looked-up value per path,
      in order. */
  function Row(basename: string, data: Value): (r: seq<string>)
    requires WalkableDocument(data)
    ensures |r| == |PerfData| + 1 == 28
    ensures r[0] == basename
    ensures forall k | 0 <= k < |PerfData| :: r[k + 1] == GetValueOrEmpty(data, PerfData[k])
  {
    [basename] + RowValues(data, PerfData)
  }

  /** The looked-up value of each path, in order. */
  function RowValues(data: Value, paths: seq<seq<string>>): (r: seq<string>)
    requires forall k | 0 <= k < |paths| :: Walkable(data, paths[k])
    ensures |r| == |paths|
    ensures forall k | 0 <= k < |paths| :: r[k] == GetValueOrEmpty(data, paths[k])
  {
    if |paths| == 0 then []
    else
      var init := paths[..|paths| - 1];
      assert forall k | 0 <= k < |init| :: init[k] == paths[k];
      RowValues(data, init) + [GetValueOrEmpty(data, paths[|paths| - 1])]
  }

  /** The header: `filepath`, then each path joined with dots. */
  function Header(): (r: seq<string>)
    ensures |r| == |PerfData| + 1
    ensures r[0] == "filepath"
    ensures forall k | 0 <= k < |PerfData| :: r[k + 1] == Join(PerfData[k], '.')
  {
    ["filepath"] + HeaderNames(PerfData)
  }

  /** Each path joined with dots, in order. */
  function HeaderNames(paths: seq<seq<string>>): (r: seq<string>)
    ensures |r| == |paths|
    ensures forall k | 0 <= k < |paths| :: r[k] == Join(paths[k], '.')
  {
    if |paths| == 0 then []
    else
      var init := paths[..|paths| - 1];
      HeaderNames(init) + [Join(paths[|paths| - 1], '.')]
  }

  /** The printed line of a row or of the header. */
  function Line(cells: seq<string>): string {
    Join(cells, '\t')
  }

  /** Every printed row has the header's columns, in the same order: when no
      looked-up value holds a tab, the row's line splits back into exactly
      its cells, as many as the header's. */
  lemma RowAligned(basename: string, data: Value)
    requires WalkableDocument(data)
    requires '\t' !in basename
    requires forall k | 0 <= k < |PerfData| :: '\t' !in GetValueOrEmpty(data, PerfData[k])
    ensures Split(Line(Row(basename, data)), '\t') == Row(basename, data)
    ensures |Split(Line(Row(basename, data)), '\t')| == |Header()|
  {
    var r := Row(basename, data);
    forall k | 0 <= k < |r| ensures '\t' !in r[k] {
      if k > 0 {
        assert r[k] == GetValueOrEmpty(data, PerfData[k - 1]);
      }
    }
    SplitJoin(r, '\t');
  }
}
