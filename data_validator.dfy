/** The dataset checks: whether every Accuzip record appears among the
    client records, compared on the mapped columns, and the choice of
    columns by keywords in their names. A frame is a list of column names
    and rows of cell texts, each cell as `str` renders it. */
module DataValidator {
  import opened Wrappers
  import opened Strings

  const MaxMismatchDisplay: nat := 5
  const MissingStatus: string := "Missing in Client Files"

  datatype Frame = Frame(columns: seq<string>, rows: seq<seq<string>>)

  /** Every row has a cell for each column. */
  predicate Rectangular(df: Frame)
  {
    forall r :: 0 <= r < |df.rows| ==> |df.rows[r]| == |df.columns|
  }

  /** The position of the first column called name. */
  function IndexOf(columns: seq<string>, name: string): (r: Option<nat>)
    ensures r.Some? ==> r.value < |columns| && columns[r.value] == name
    ensures r.None? <==> name !in columns
  {
    if columns == [] then None
    else if columns[0] == name then Some(0)
    else match IndexOf(columns[1..], name)
      case None => None
      case Some(i) => Some(i + 1)
  }

  /** `df[names]`: the positions of the named columns, or nothing when a
      name is not a column (pandas raises `KeyError`). */
  function Select(columns: seq<string>, names: seq<string>): (r: Option<seq<nat>>)
    ensures r.Some? <==> forall i :: 0 <= i < |names| ==> names[i] in columns
    ensures r.Some? ==> |r.value| == |names|
    ensures r.Some? ==> forall i :: 0 <= i < |names| ==> r.value[i] < |columns| && columns[r.value[i]] == names[i]
  {
    if names == [] then Some([])
    else
      var init := Select(columns, names[..|names| - 1]);
      var last := IndexOf(columns, names[|names| - 1]);
      if init.None? || last.None? then None else Some(init.value + [last.value])
  }

  /** The keys of the column mapping, which name Accuzip columns. */
  function Sources(mapping: seq<(string, string)>): (r: seq<string>)
    ensures |r| == |mapping| && forall i :: 0 <= i < |mapping| ==> r[i] == mapping[i].0
  {
    seq(|mapping|, i requires 0 <= i < |mapping| => mapping[i].0)
  }

  /** The values of the column mapping, which name client columns. */
  function Targets(mapping: seq<(string, string)>): (r: seq<string>)
    ensures |r| == |mapping| && forall i :: 0 <= i < |mapping| ==> r[i] == mapping[i].1
  {
    seq(|mapping|, i requires 0 <= i < |mapping| => mapping[i].1)
  }

  /** A cell as it is compared: stripped and lower-cased. */
  function Normal(cell: string): string
  {
    Lower(Strip(cell))
  }

  /** A cell with no white space at either end and no upper-case letter
      is compared as it is. */
  lemma NormalUnchanged(cell: string)
    requires cell != [] ==> !Whitespace(cell[0]) && !Whitespace(cell[|cell| - 1])
    requires forall k :: 0 <= k < |cell| ==> !('A' <= cell[k] <= 'Z')
    ensures Normal(cell) == cell
  {
    StripUnchanged(cell);
    LowerUnchanged(cell);
  }

  /** The selected columns lie within every row. */
  predicate Fits(rows: seq<seq<string>>, idx: seq<nat>)
  {
    forall r, i :: 0 <= r < |rows| && 0 <= i < |idx| ==> idx[i] < |rows[r]|
  }

  /** The compared values of a row: its selected cells, normalised. */
  function Values(row: seq<string>, idx: seq<nat>): (vals: seq<string>)
    requires forall i :: 0 <= i < |idx| ==> idx[i] < |row|
    ensures |vals| == |idx| && forall i :: 0 <= i < |idx| ==> vals[i] == Normal(row[idx[i]])
  {
    seq(|idx|, i requires 0 <= i < |idx| => Normal(row[idx[i]]))
  }

  /** The composite key of `compare_datasets`: the values joined with "_"
      into one text. */
  function JoinedKey(vals: seq<string>): seq<string>
  {
    [Join(vals, "_")]
  }

  /** The values themselves, kept apart, as the key. */
  function TupleKey(vals: seq<string>): seq<string>
  {
    vals
  }

  /** The keys of all rows. */
  function KeySet(key: seq<string> -> seq<string>, rows: seq<seq<string>>, idx: seq<nat>): set<seq<string>>
    requires Fits(rows, idx)
  {
    set r | 0 <= r < |rows| :: key(Values(rows[r], idx))
  }

  /** The positions below n of the rows whose key is not among keys, in
      order. */
  function MissingRows(key: seq<string> -> seq<string>, rows: seq<seq<string>>, idx: seq<nat>,
                       keys: set<seq<string>>, n: nat): seq<nat>
    requires n <= |rows| && Fits(rows, idx)
  {
    if n == 0 then []
    else
      var tail := if key(Values(rows[n - 1], idx)) !in keys then [n - 1] else [];
      MissingRows(key, rows, idx, keys, n - 1) + tail
  }

  /** A row of the `mismatches` table: the 1-based record number, the
      Accuzip record and its status. */
  datatype Mismatch = Mismatch(recordNo: nat, record: seq<string>, status: string)

  datatype Comparison = Comparison(total: nat, matching: nat, missing: nat, mismatches: seq<Mismatch>)

  /** The first missing records, at most five, for display. */
  function Mismatches(rows: seq<seq<string>>, missing: seq<nat>): (r: seq<Mismatch>)
    requires forall j :: 0 <= j < |missing| ==> missing[j] < |rows|
  {
    var n := if |missing| < MaxMismatchDisplay then |missing| else MaxMismatchDisplay;
    seq(n, j requires 0 <= j < n => Mismatch(missing[j] + 1, rows[missing[j]], MissingStatus))
  }

  /** The positions of the mapped columns: `source_cols` in df1 and
      `target_cols` in df2. */
  datatype Selection = Selection(src: seq<nat>, tgt: seq<nat>)

  /** `df1_comp[source_cols]` and `df2_comp[target_cols]`: nothing when a
      mapped column is not in its frame (pandas raises `KeyError`). */
  function SelectionOf(df1: Frame, df2: Frame, mapping: seq<(string, string)>): (r: Option<Selection>)
    ensures r.Some? <==> Select(df1.columns, Sources(mapping)).Some? && Select(df2.columns, Targets(mapping)).Some?
  {
    var src := Select(df1.columns, Sources(mapping));
    var tgt := Select(df2.columns, Targets(mapping));
    if src.None? || tgt.None? then None else Some(Selection(src.value, tgt.value))
  }

  /** The selected columns lie within every row of their frame. */
  predicate Within(df1: Frame, df2: Frame, sel: Selection)
  {
    Fits(df1.rows, sel.src) && Fits(df2.rows, sel.tgt)
  }

  /** The key of Accuzip record i. */
  function SourceKey(key: seq<string> -> seq<string>, df1: Frame, sel: Selection, i: nat): seq<string>
    requires Fits(df1.rows, sel.src) && i < |df1.rows|
  {
    key(Values(df1.rows[i], sel.src))
  }

  /** The key of client record r. */
  function TargetKey(key: seq<string> -> seq<string>, df2: Frame, sel: Selection, r: nat): seq<string>
    requires Fits(df2.rows, sel.tgt) && r < |df2.rows|
  {
    key(Values(df2.rows[r], sel.tgt))
  }

  /** `missing_indices`: the Accuzip records whose key is not a client
      key. */
  function Missing(key: seq<string> -> seq<string>, df1: Frame, df2: Frame, sel: Selection): seq<nat>
    requires Within(df1, df2, sel)
  {
    MissingRows(key, df1.rows, sel.src, KeySet(key, df2.rows, sel.tgt), |df1.rows|)
  }

  /** `compare_datasets` with the given key; nothing when it raises: a
      mapped column is missing, or df1 is empty and the summary divides by
      zero. */
  function Compare(key: seq<string> -> seq<string>, df1: Frame, df2: Frame,
                   mapping: seq<(string, string)>): Option<Comparison>
    requires Rectangular(df1) && Rectangular(df2)
  {
    match SelectionOf(df1, df2, mapping)
    case None => None
    case Some(sel) =>
      if |df1.rows| == 0 then None
      else
        SelectionWithin(df1, df2, mapping);
        var missing := Missing(key, df1, df2, sel);
        MissingFacts(key, df1.rows, sel.src, KeySet(key, df2.rows, sel.tgt), |df1.rows|);
        Some(Comparison(|df1.rows|, |df1.rows| - |missing|, |missing|, Mismatches(df1.rows, missing)))
  }

  /** `compare_datasets`: records are matched on their values joined with
      "_". */
  function CompareDatasets(df1: Frame, df2: Frame, mapping: seq<(string, string)>): Option<Comparison>
    requires Rectangular(df1) && Rectangular(df2)
  {
    Compare(JoinedKey, df1, df2, mapping)
  }

  /** The comparison `compare_datasets` evidently intends: records are
      matched on the values themselves, kept apart. */
  function CompareDatasetsByCells(df1: Frame, df2: Frame, mapping: seq<(string, string)>): Option<Comparison>
    requires Rectangular(df1) && Rectangular(df2)
  {
    Compare(TupleKey, df1, df2, mapping)
  }

  /** The mapped columns of rectangular frames fit every row. */
  lemma SelectionWithin(df1: Frame, df2: Frame, mapping: seq<(string, string)>)
    requires Rectangular(df1) && Rectangular(df2) && SelectionOf(df1, df2, mapping).Some?
    ensures Within(df1, df2, SelectionOf(df1, df2, mapping).value)
  {
  }

  /** The missing rows are exactly the rows whose key is not among keys,
      each once, in ascending order. */
  lemma {:induction false} MissingFacts(key: seq<string> -> seq<string>, rows: seq<seq<string>>, idx: seq<nat>,
                                        keys: set<seq<string>>, n: nat)
    requires n <= |rows| && Fits(rows, idx)
    ensures var ms := MissingRows(key, rows, idx, keys, n);
      |ms| <= n && forall j :: 0 <= j < |ms| ==> ms[j] < n
    ensures var ms := MissingRows(key, rows, idx, keys, n);
      forall i: nat :: i in ms <==> i < n && key(Values(rows[i], idx)) !in keys
    ensures var ms := MissingRows(key, rows, idx, keys, n);
      forall j, l :: 0 <= j < l < |ms| ==> ms[j] < ms[l]
  {
    if n > 0 {
      MissingFacts(key, rows, idx, keys, n - 1);
      var ms := MissingRows(key, rows, idx, keys, n - 1);
      var tail := if key(Values(rows[n - 1], idx)) !in keys then [n - 1] else [];
      assert MissingRows(key, rows, idx, keys, n) == ms + tail;
    }
  }

  /** No row is missing when every key is among keys. */
  lemma {:induction false} NoneMissing(key: seq<string> -> seq<string>, rows: seq<seq<string>>, idx: seq<nat>,
                                       keys: set<seq<string>>, n: nat)
    requires n <= |rows| && Fits(rows, idx)
    requires forall i :: 0 <= i < n ==> key(Values(rows[i], idx)) in keys
    ensures MissingRows(key, rows, idx, keys, n) == []
  {
    if n > 0 {
      NoneMissing(key, rows, idx, keys, n - 1);
    }
  }

  /** One record against one client record: missing exactly when the keys
      differ. */
  lemma OneRecord(key: seq<string> -> seq<string>, df1: Frame, df2: Frame, sel: Selection)
    requires Within(df1, df2, sel) && |df1.rows| == 1 && |df2.rows| == 1
    ensures Missing(key, df1, df2, sel) ==
      if SourceKey(key, df1, sel, 0) == TargetKey(key, df2, sel, 0) then [] else [0]
  {
    var keys := KeySet(key, df2.rows, sel.tgt);
    assert TargetKey(key, df2, sel, 0) in keys;
    assert keys == {TargetKey(key, df2, sel, 0)};
    assert MissingRows(key, df1.rows, sel.src, keys, 0) == [];
  }

  /** The comparison once the selection and the missing records are
      known. */
  lemma CompareWith(key: seq<string> -> seq<string>, df1: Frame, df2: Frame, mapping: seq<(string, string)>,
                    sel: Selection, ms: seq<nat>)
    requires Rectangular(df1) && Rectangular(df2) && |df1.rows| > 0
    requires SelectionOf(df1, df2, mapping) == Some(sel) && Within(df1, df2, sel)
    requires Missing(key, df1, df2, sel) == ms
    ensures |ms| <= |df1.rows| && forall j :: 0 <= j < |ms| ==> ms[j] < |df1.rows|
    ensures Compare(key, df1, df2, mapping) ==
      Some(Comparison(|df1.rows|, |df1.rows| - |ms|, |ms|, Mismatches(df1.rows, ms)))
  {
    MissingFacts(key, df1.rows, sel.src, KeySet(key, df2.rows, sel.tgt), |df1.rows|);
  }

  /** One record against one client record: it matches when the keys
      agree and is listed as missing record 1 when they differ. */
  lemma OneRecordCompare(key: seq<string> -> seq<string>, df1: Frame, df2: Frame, mapping: seq<(string, string)>)
    requires Rectangular(df1) && Rectangular(df2) && |df1.rows| == 1 && |df2.rows| == 1
    requires SelectionOf(df1, df2, mapping).Some?
    ensures Within(df1, df2, SelectionOf(df1, df2, mapping).value)
    ensures var sel := SelectionOf(df1, df2, mapping).value;
      Compare(key, df1, df2, mapping) ==
        if SourceKey(key, df1, sel, 0) == TargetKey(key, df2, sel, 0) then Some(Comparison(1, 1, 0, []))
        else Some(Comparison(1, 0, 1, [Mismatch(1, df1.rows[0], MissingStatus)]))
  {
    var sel := SelectionOf(df1, df2, mapping).value;
    SelectionWithin(df1, df2, mapping);
    OneRecord(key, df1, df2, sel);
    var ms := Missing(key, df1, df2, sel);
    CompareWith(key, df1, df2, mapping, sel, ms);
    OneMismatch(df1.rows, ms);
  }

  /** No missing record lists nothing; missing record 0 alone lists it
      as record 1. */
  lemma OneMismatch(rows: seq<seq<string>>, ms: seq<nat>)
    requires |rows| == 1 && (ms == [] || ms == [0])
    ensures Mismatches(rows, ms) == if ms == [] then [] else [Mismatch(1, rows[0], MissingStatus)]
  {
    if ms != [] {
      assert Mismatches(rows, ms)[0] == Mismatch(1, rows[0], MissingStatus);
    }
  }

  /** `compare_datasets` raises exactly when a mapped column is missing
      from its frame or df1 has no rows. */
  lemma CompareRaises(key: seq<string> -> seq<string>, df1: Frame, df2: Frame, mapping: seq<(string, string)>)
    requires Rectangular(df1) && Rectangular(df2)
    ensures Compare(key, df1, df2, mapping).None? <==>
      (exists i :: 0 <= i < |mapping| && mapping[i].0 !in df1.columns) ||
      (exists i :: 0 <= i < |mapping| && mapping[i].1 !in df2.columns) ||
      |df1.rows| == 0
  {
    if Select(df1.columns, Sources(mapping)).None? {
      var i :| 0 <= i < |mapping| && Sources(mapping)[i] !in df1.columns;
    }
    if Select(df2.columns, Targets(mapping)).None? {
      var i :| 0 <= i < |mapping| && Targets(mapping)[i] !in df2.columns;
    }
  }

  /** When `compare_datasets` returns, its counts add up: the matching and
      the missing records make up all of df1, and the first five missing
      records are listed in order, each with its 1-based record number and
      the missing status. */
  lemma CompareSummary(key: seq<string> -> seq<string>, df1: Frame, df2: Frame, mapping: seq<(string, string)>)
    requires Rectangular(df1) && Rectangular(df2) && Compare(key, df1, df2, mapping).Some?
    ensures SelectionOf(df1, df2, mapping).Some? && Within(df1, df2, SelectionOf(df1, df2, mapping).value)
    ensures var c := Compare(key, df1, df2, mapping).value;
      var ms := Missing(key, df1, df2, SelectionOf(df1, df2, mapping).value);
      c.total == |df1.rows| && c.missing == |ms| && c.matching + c.missing == c.total &&
      |c.mismatches| == (if |ms| < MaxMismatchDisplay then |ms| else MaxMismatchDisplay) &&
      forall j :: 0 <= j < |c.mismatches| ==>
        ms[j] < |df1.rows| && c.mismatches[j] == Mismatch(ms[j] + 1, df1.rows[ms[j]], MissingStatus)
  {
    var sel := SelectionOf(df1, df2, mapping).value;
    SelectionWithin(df1, df2, mapping);
    MissingFacts(key, df1.rows, sel.src, KeySet(key, df2.rows, sel.tgt), |df1.rows|);
  }

  /** An Accuzip record is missing exactly when no client record has its
      key, and the missing records come in ascending order. */
  lemma MissingExactly(key: seq<string> -> seq<string>, df1: Frame, df2: Frame, sel: Selection)
    requires Within(df1, df2, sel)
    ensures forall i: nat :: i in Missing(key, df1, df2, sel) <==>
      i < |df1.rows| && forall r: nat :: r < |df2.rows| ==> TargetKey(key, df2, sel, r) != SourceKey(key, df1, sel, i)
    ensures var ms := Missing(key, df1, df2, sel);
      forall j, l :: 0 <= j < l < |ms| ==> ms[j] < ms[l]
  {
    var keys := KeySet(key, df2.rows, sel.tgt);
    var ms := Missing(key, df1, df2, sel);
    MissingFacts(key, df1.rows, sel.src, keys, |df1.rows|);
    assert ms == MissingRows(key, df1.rows, sel.src, keys, |df1.rows|);
    forall i: nat
      ensures i in ms <==>
        i < |df1.rows| && forall r: nat :: r < |df2.rows| ==> TargetKey(key, df2, sel, r) != SourceKey(key, df1, sel, i)
    {
      if i < |df1.rows| {
        assert i in ms <==> SourceKey(key, df1, sel, i) !in keys;
        KeyAbsent(key, df1, df2, sel, i);
      }
    }
  }

  /** An Accuzip key is not a client key exactly when no client record
      has it. */
  lemma KeyAbsent(key: seq<string> -> seq<string>, df1: Frame, df2: Frame, sel: Selection, i: nat)
    requires Within(df1, df2, sel) && i < |df1.rows|
    ensures SourceKey(key, df1, sel, i) !in KeySet(key, df2.rows, sel.tgt) <==>
      forall r: nat :: r < |df2.rows| ==> TargetKey(key, df2, sel, r) != SourceKey(key, df1, sel, i)
  {
    var keys := KeySet(key, df2.rows, sel.tgt);
    var k := SourceKey(key, df1, sel, i);
    if k in keys {
      var r :| 0 <= r < |df2.rows| && key(Values(df2.rows[r], sel.tgt)) == k;
      assert TargetKey(key, df2, sel, r) == k;
    } else {
      forall r: nat | r < |df2.rows|
        ensures TargetKey(key, df2, sel, r) != k
      {
        assert TargetKey(key, df2, sel, r) in keys;
      }
    }
  }

  /** Client frames with the same columns and the same set of keys give
      the same comparison: client row order and duplicate client rows make
      no difference. */
  lemma ClientKeysOnly(key: seq<string> -> seq<string>, df1: Frame, df2: Frame, df3: Frame,
                       mapping: seq<(string, string)>)
    requires Rectangular(df1) && Rectangular(df2) && Rectangular(df3) && df2.columns == df3.columns
    requires var sel := SelectionOf(df1, df2, mapping);
      sel.Some? ==> (Fits(df2.rows, sel.value.tgt) && Fits(df3.rows, sel.value.tgt) &&
                     KeySet(key, df2.rows, sel.value.tgt) == KeySet(key, df3.rows, sel.value.tgt))
    ensures Compare(key, df1, df2, mapping) == Compare(key, df1, df3, mapping)
  {
    assert SelectionOf(df1, df2, mapping) == SelectionOf(df1, df3, mapping);
    if SelectionOf(df1, df2, mapping).Some? {
      var sel := SelectionOf(df1, df2, mapping).value;
      assert Missing(key, df1, df2, sel) == Missing(key, df1, df3, sel);
    }
  }

  /** On the values themselves, a record is missing exactly when no client
      record has the same stripped, lower-cased values in the mapped
      columns. */
  lemma TupleKeyIntended(df1: Frame, df2: Frame, sel: Selection, i: nat)
    requires Within(df1, df2, sel) && i < |df1.rows|
    ensures i in Missing(TupleKey, df1, df2, sel) <==>
      forall r: nat :: r < |df2.rows| ==> Values(df2.rows[r], sel.tgt) != Values(df1.rows[i], sel.src)
  {
    MissingExactly(TupleKey, df1, df2, sel);
    assert SourceKey(TupleKey, df1, sel, i) == Values(df1.rows[i], sel.src);
    forall r: nat | r < |df2.rows|
      ensures TargetKey(TupleKey, df2, sel, r) == Values(df2.rows[r], sel.tgt)
    {
    }
  }

  /** Distinct names, each found at its own position. */
  predicate Distinct(names: seq<string>)
  {
    forall i, j :: 0 <= i < j < |names| ==> names[i] != names[j]
  }

  lemma {:induction false} IndexOfDistinct(columns: seq<string>, i: nat)
    requires Distinct(columns) && i < |columns|
    ensures IndexOf(columns, columns[i]) == Some(i)
  {
    if i > 0 {
      assert columns[0] != columns[i];
      IndexOfDistinct(columns[1..], i - 1);
      assert columns[1..][i - 1] == columns[i];
    }
  }

  /** The positions 0 to k - 1, in order. */
  function Positions(k: nat): (r: seq<nat>)
    ensures |r| == k && forall i :: 0 <= i < k ==> r[i] == i
  {
    if k == 0 then [] else Positions(k - 1) + [k - 1]
  }

  lemma {:induction false} SelectPrefix(columns: seq<string>, k: nat)
    requires Distinct(columns) && k <= |columns|
    ensures Select(columns, columns[..k]) == Some(Positions(k))
  {
    if k > 0 {
      SelectPrefix(columns, k - 1);
      var names := columns[..k];
      assert names[..k - 1] == columns[..k - 1];
      assert names[k - 1] == columns[k - 1];
      IndexOfDistinct(columns, k - 1);
    }
  }

  /** Selecting all the columns of a frame with distinct column names, in
      order, picks each column at its own position. */
  lemma SelectSelf(columns: seq<string>)
    requires Distinct(columns)
    ensures Select(columns, columns) == Some(Positions(|columns|))
  {
    SelectPrefix(columns, |columns|);
    assert columns[..|columns|] == columns;
  }

  /** A record is never missing from a client frame with the same rows,
      compared on the same columns. */
  lemma SameRowsNoMissing(key: seq<string> -> seq<string>, df1: Frame, df2: Frame, sel: Selection)
    requires Within(df1, df2, sel) && df1.rows == df2.rows && sel.src == sel.tgt
    ensures Missing(key, df1, df2, sel) == []
  {
    var keys := KeySet(key, df2.rows, sel.tgt);
    forall i | 0 <= i < |df1.rows|
      ensures key(Values(df1.rows[i], sel.src)) in keys
    {
      assert key(Values(df2.rows[i], sel.tgt)) in keys;
    }
    NoneMissing(key, df1.rows, sel.src, keys, |df1.rows|);
  }

  /** Where the selections and the rows agree, every record matches. */
  lemma SameRowsMatch(key: seq<string> -> seq<string>, df1: Frame, df2: Frame, mapping: seq<(string, string)>)
    requires Rectangular(df1) && Rectangular(df2) && |df1.rows| > 0 && df1.rows == df2.rows
    requires Select(df1.columns, Sources(mapping)).Some?
    requires Select(df1.columns, Sources(mapping)) == Select(df2.columns, Targets(mapping))
    ensures var c := Compare(key, df1, df2, mapping);
      c.Some? && c.value.missing == 0 && c.value.matching == c.value.total == |df1.rows| && c.value.mismatches == []
  {
    var sel := SelectionOf(df1, df2, mapping).value;
    SelectionWithin(df1, df2, mapping);
    SameRowsNoMissing(key, df1, df2, sel);
    CompareSummary(key, df1, df2, mapping);
  }

  /** A frame compared with a copy of itself under other, distinct column
      names, every column mapped to its counterpart in order, matches every
      record. */
  lemma RenamedCopyMatches(key: seq<string> -> seq<string>, df1: Frame, df2: Frame, mapping: seq<(string, string)>)
    requires Rectangular(df1) && Rectangular(df2) && |df1.rows| > 0 && df1.rows == df2.rows
    requires Distinct(df1.columns) && Distinct(df2.columns)
    requires Sources(mapping) == df1.columns && Targets(mapping) == df2.columns
    ensures Compare(key, df1, df2, mapping) == Some(Comparison(|df1.rows|, |df1.rows|, 0, []))
  {
    SelectSelf(df1.columns);
    SelectSelf(df2.columns);
    SameRowsMatch(key, df1, df2, mapping);
  }

  /** Some keyword, lower-cased, occurs in the lower-cased column name. */
  predicate Mentions(column: string, keywords: seq<string>)
  {
    exists k :: 0 <= k < |keywords| && Contains(Lower(column), Lower(keywords[k]))
  }

  /** `any(kw.lower() in col_lower for kw in keywords)`. */
  method MentionsAny(column: string, keywords: seq<string>) returns (found: bool)
    ensures found == Mentions(column, keywords)
  {
    var low := Lower(column);
    for k := 0 to |keywords|
      invariant forall j :: 0 <= j < k ==> !Contains(low, Lower(keywords[j]))
    {
      if Contains(low, Lower(keywords[k])) {
        return true;
      }
    }
    return false;
  }

  /** The position of the first column from i on that mentions a
      keyword. */
  function FirstMention(columns: seq<string>, keywords: seq<string>, i: nat): Option<nat>
    requires i <= |columns|
    decreases |columns| - i
  {
    if i == |columns| then None
    else if Mentions(columns[i], keywords) then Some(i)
    else FirstMention(columns, keywords, i + 1)
  }

  /** `find_column_by_keywords`. */
  function FindColumn(columns: seq<string>, keywords: seq<string>, default: int): int
  {
    match FirstMention(columns, keywords, 0)
    case Some(i) => i
    case None => default
  }

  lemma {:induction false} FirstMentionFacts(columns: seq<string>, keywords: seq<string>, i: nat)
    requires i <= |columns|
    ensures var r := FirstMention(columns, keywords, i);
      r.Some? ==> (i <= r.value < |columns| && Mentions(columns[r.value], keywords) &&
                   forall j :: i <= j < r.value ==> !Mentions(columns[j], keywords))
    ensures FirstMention(columns, keywords, i).None? ==> forall j :: i <= j < |columns| ==> !Mentions(columns[j], keywords)
    decreases |columns| - i
  {
    if i < |columns| && !Mentions(columns[i], keywords) {
      FirstMentionFacts(columns, keywords, i + 1);
    }
  }

  /** The column found is the first that mentions a keyword, and the
      default comes back only when none does. */
  lemma FindColumnFirst(columns: seq<string>, keywords: seq<string>, default: int)
    ensures var r := FindColumn(columns, keywords, default);
      (exists j :: 0 <= j < |columns| && Mentions(columns[j], keywords)) ==>
        0 <= r < |columns| && Mentions(columns[r], keywords) &&
        forall j :: 0 <= j < r ==> !Mentions(columns[j], keywords)
    ensures (forall j :: 0 <= j < |columns| ==> !Mentions(columns[j], keywords)) ==>
      FindColumn(columns, keywords, default) == default
  {
    FirstMentionFacts(columns, keywords, 0);
  }

  /** `find_column_by_keywords`: the loop over the columns. */
  method FindColumnByKeywords(columns: seq<string>, keywords: seq<string>, default: int) returns (r: int)
    ensures r == FindColumn(columns, keywords, default)
  {
    for i := 0 to |columns|
      invariant FirstMention(columns, keywords, 0) == FirstMention(columns, keywords, i)
    {
      var found := MentionsAny(columns[i], keywords);
      if found {
        return i;
      }
    }
    return default;
  }

  const AddressKeywords: seq<string> := ["address", "addr", "street"]
  const ZipKeywords: seq<string> := ["zip", "postal"]
  const ImbKeywords: seq<string> := ["imb", "barcode", "intelligent"]
  const DisplayKeywords: seq<string> := ["first", "dwelling_l", "yearly_pre"]

  /** `keyword_map.get(column_type, [])`. */
  function KeywordsFor(columnType: string): seq<string>
  {
    if columnType == "address" then AddressKeywords
    else if columnType == "zip" then ZipKeywords
    else if columnType == "imb" then ImbKeywords
    else if columnType == "display" then DisplayKeywords
    else []
  }

  /** The columns that mention a keyword, in column order. */
  function MatchingColumns(columns: seq<string>, keywords: seq<string>): seq<string>
  {
    if columns == [] then []
    else
      var last := columns[|columns| - 1];
      MatchingColumns(columns[..|columns| - 1], keywords) + (if Mentions(last, keywords) then [last] else [])
  }

  /** A column is chosen exactly when it mentions a keyword. */
  lemma {:induction false} MatchingMembers(columns: seq<string>, keywords: seq<string>)
    ensures forall c :: c in MatchingColumns(columns, keywords) <==> c in columns && Mentions(c, keywords)
  {
    if columns != [] {
      var init := columns[..|columns| - 1];
      MatchingMembers(init, keywords);
      assert columns == init + [columns[|columns| - 1]];
    }
  }

  /** The choice keeps column order: the columns of a + b are those of a
      followed by those of b. */
  lemma {:induction false} MatchingAppend(a: seq<string>, b: seq<string>, keywords: seq<string>)
    ensures MatchingColumns(a + b, keywords) == MatchingColumns(a, keywords) + MatchingColumns(b, keywords)
    decreases |b|
  {
    if b == [] {
      assert a + b == a;
    } else {
      var init := b[..|b| - 1];
      assert (a + b)[..|a + b| - 1] == a + init;
      MatchingAppend(a, init, keywords);
    }
  }

  /** With no keywords no column is chosen. */
  lemma {:induction false} NoKeywords(columns: seq<string>)
    ensures MatchingColumns(columns, []) == []
  {
    if columns != [] {
      NoKeywords(columns[..|columns| - 1]);
      assert !Mentions(columns[|columns| - 1], []);
    }
  }

  /** An unknown column type has no keywords, so no column is chosen. */
  lemma UnknownType(columns: seq<string>, columnType: string)
    requires columnType !in {"address", "zip", "imb", "display"}
    ensures MatchingColumns(columns, KeywordsFor(columnType)) == []
  {
    NoKeywords(columns);
  }

  /** `get_default_columns`: the loop that collects the chosen columns. */
  method GetDefaultColumns(columns: seq<string>, columnType: string) returns (matches: seq<string>)
    ensures matches == MatchingColumns(columns, KeywordsFor(columnType))
  {
    var keywords := KeywordsFor(columnType);
    matches := [];
    for i := 0 to |columns|
      invariant matches == MatchingColumns(columns[..i], keywords)
    {
      assert columns[..i + 1][..i] == columns[..i];
      var found := MentionsAny(columns[i], keywords);
      if found {
        matches := matches + [columns[i]];
      }
    }
    assert columns[..|columns|] == columns;
  }
}
