/** `compare_datasets` on the frames of the test suite, and on two records
    that the joined key confuses. */
module DataValidatorCases {
  import opened Wrappers
  import opened Strings
  import opened DataValidator

  /** Identical data: all three records are found in the client file,
      whether records are matched on their joined values or on the values
      themselves. */
  lemma IdenticalData()
    ensures var df1 := Frame(["col1", "col2"], [["a", "1"], ["b", "2"], ["c", "3"]]);
      var df2 := Frame(["colA", "colB"], [["a", "1"], ["b", "2"], ["c", "3"]]);
      var m := [("col1", "colA"), ("col2", "colB")];
      Rectangular(df1) && Rectangular(df2) &&
      CompareDatasets(df1, df2, m) == Some(Comparison(3, 3, 0, [])) &&
      CompareDatasetsByCells(df1, df2, m) == Some(Comparison(3, 3, 0, []))
  {
    var df1 := Frame(["col1", "col2"], [["a", "1"], ["b", "2"], ["c", "3"]]);
    var df2 := Frame(["colA", "colB"], [["a", "1"], ["b", "2"], ["c", "3"]]);
    var m := [("col1", "colA"), ("col2", "colB")];
    assert Sources(m) == df1.columns;
    assert Targets(m) == df2.columns;
    assert df1.columns[0][3] != df1.columns[1][3];
    assert df2.columns[0][3] != df2.columns[1][3];
    RenamedCopyMatches(JoinedKey, df1, df2, m);
    RenamedCopyMatches(TupleKey, df1, df2, m);
  }

  /** The single-letter cells compare as they are. */
  lemma LettersNormal()
    ensures Normal("a") == "a" && Normal("b") == "b" && Normal("c") == "c" && Normal("d") == "d"
  {
    NormalUnchanged("a");
    NormalUnchanged("b");
    NormalUnchanged("c");
    NormalUnchanged("d");
  }

  /** A key that keeps a single value as it is. */
  ghost predicate KeepsSingle(key: seq<string> -> seq<string>)
  {
    forall v: seq<string> :: |v| == 1 ==> key(v) == v
  }

  /** Both keys keep a single value: joining one value gives that value. */
  lemma SingleKeys()
    ensures KeepsSingle(JoinedKey) && KeepsSingle(TupleKey)
  {
    forall v: seq<string> | |v| == 1
      ensures JoinedKey(v) == v
    {
      assert Join(v, "_") == v[0];
    }
  }

  /** The frames of the second case: the client file holds only the first
      two of four records. */
  const Accuzip4: Frame := Frame(["col1"], [["a"], ["b"], ["c"], ["d"]])
  const Client2: Frame := Frame(["colA"], [["a"], ["b"]])
  const Mapping1: seq<(string, string)> := [("col1", "colA")]

  lemma SubsetSelection()
    ensures SelectionOf(Accuzip4, Client2, Mapping1) == Some(Selection([0], [0]))
  {
    assert Sources(Mapping1) == Accuzip4.columns;
    assert Targets(Mapping1) == Client2.columns;
    SelectSelf(Accuzip4.columns);
    SelectSelf(Client2.columns);
    assert Positions(1) == [0];
  }

  lemma LetterValues()
    ensures Values(["a"], [0]) == ["a"] && Values(["b"], [0]) == ["b"]
    ensures Values(["c"], [0]) == ["c"] && Values(["d"], [0]) == ["d"]
  {
    LettersNormal();
  }

  /** Each client record's key is its one cell. */
  lemma ClientRowKeys(key: seq<string> -> seq<string>)
    requires KeepsSingle(key)
    ensures Fits(Client2.rows, [0])
    ensures forall r :: 0 <= r < 2 ==> key(Values(Client2.rows[r], [0])) == Client2.rows[r]
  {
    var rows := Client2.rows;
    forall r | 0 <= r < 2
      ensures key(Values(rows[r], [0])) == rows[r]
    {
      LetterValues();
      assert Values(rows[r], [0]) == rows[r];
    }
  }

  /** Both client records' cells are client keys. */
  lemma ClientKeysFound(key: seq<string> -> seq<string>)
    requires KeepsSingle(key)
    ensures Fits(Client2.rows, [0])
    ensures Client2.rows[0] in KeySet(key, Client2.rows, [0]) && Client2.rows[1] in KeySet(key, Client2.rows, [0])
  {
    ClientRowKeys(key);
    var rows := Client2.rows;
    assert key(Values(rows[0], [0])) in KeySet(key, rows, [0]);
    assert key(Values(rows[1], [0])) in KeySet(key, rows, [0]);
  }

  /** No other client key. */
  lemma ClientKeysOnlyThese(key: seq<string> -> seq<string>)
    requires KeepsSingle(key)
    ensures Fits(Client2.rows, [0])
    ensures forall k :: k in KeySet(key, Client2.rows, [0]) ==> k == Client2.rows[0] || k == Client2.rows[1]
  {
    ClientRowKeys(key);
    var rows := Client2.rows;
    forall k | k in KeySet(key, rows, [0])
      ensures k == rows[0] || k == rows[1]
    {
      var r :| 0 <= r < 2 && key(Values(rows[r], [0])) == k;
    }
  }

  /** The client keys hold the first two records and not the last two. */
  lemma SubsetKeys(key: seq<string> -> seq<string>)
    requires KeepsSingle(key)
    ensures Fits(Client2.rows, [0])
    ensures var keys := KeySet(key, Client2.rows, [0]);
      Accuzip4.rows[0] in keys && Accuzip4.rows[1] in keys &&
      Accuzip4.rows[2] !in keys && Accuzip4.rows[3] !in keys
  {
    ClientKeysFound(key);
    ClientKeysOnlyThese(key);
    var rows := Accuzip4.rows;
    assert rows[2][0][0] != 'a' && rows[2][0][0] != 'b';
    assert rows[3][0][0] != 'a' && rows[3][0][0] != 'b';
  }

  /** Each record's key is its one cell. */
  lemma RowKeys(key: seq<string> -> seq<string>)
    requires KeepsSingle(key)
    ensures forall i :: 0 <= i < 4 ==> key(Values(Accuzip4.rows[i], [0])) == Accuzip4.rows[i]
  {
    var rows := Accuzip4.rows;
    forall i | 0 <= i < 4
      ensures key(Values(rows[i], [0])) == rows[i]
    {
      LetterValues();
      assert Values(rows[i], [0]) == rows[i];
    }
  }

  /** The first two records are found among keys holding them. */
  lemma FirstTwoFound(key: seq<string> -> seq<string>, keys: set<seq<string>>)
    requires KeepsSingle(key)
    requires Accuzip4.rows[0] in keys && Accuzip4.rows[1] in keys
    ensures Fits(Accuzip4.rows, [0]) && MissingRows(key, Accuzip4.rows, [0], keys, 2) == []
  {
    RowKeys(key);
    assert MissingRows(key, Accuzip4.rows, [0], keys, 1) == [];
  }

  /** Records 2 and 3 are missing from keys that hold only the first two. */
  lemma LastTwoMissing(key: seq<string> -> seq<string>, keys: set<seq<string>>)
    requires KeepsSingle(key)
    requires Accuzip4.rows[0] in keys && Accuzip4.rows[1] in keys
    requires Accuzip4.rows[2] !in keys && Accuzip4.rows[3] !in keys
    ensures Fits(Accuzip4.rows, [0]) && MissingRows(key, Accuzip4.rows, [0], keys, 4) == [2, 3]
  {
    var rows := Accuzip4.rows;
    FirstTwoFound(key, keys);
    RowKeys(key);
    assert MissingRows(key, rows, [0], keys, 3) == [2];
  }

  lemma SubsetMissing(key: seq<string> -> seq<string>)
    requires KeepsSingle(key)
    ensures Within(Accuzip4, Client2, Selection([0], [0]))
    ensures Missing(key, Accuzip4, Client2, Selection([0], [0])) == [2, 3]
  {
    SubsetKeys(key);
    LastTwoMissing(key, KeySet(key, Client2.rows, [0]));
  }

  lemma SubsetMismatches()
    ensures Mismatches(Accuzip4.rows, [2, 3]) == [Mismatch(3, ["c"], MissingStatus), Mismatch(4, ["d"], MissingStatus)]
  {
  }

  lemma SubsetShapes()
    ensures Rectangular(Accuzip4) && Rectangular(Client2) && |Accuzip4.rows| == 4
  {
  }

  /** The subset case under a key that keeps a single value. */
  lemma SubsetCompare(key: seq<string> -> seq<string>)
    requires KeepsSingle(key)
    ensures Rectangular(Accuzip4) && Rectangular(Client2)
    ensures Compare(key, Accuzip4, Client2, Mapping1) ==
      Some(Comparison(4, 2, 2, [Mismatch(3, ["c"], MissingStatus), Mismatch(4, ["d"], MissingStatus)]))
  {
    SubsetShapes();
    SubsetSelection();
    SubsetMissing(key);
    SubsetMismatches();
    CompareWith(key, Accuzip4, Client2, Mapping1, Selection([0], [0]), [2, 3]);
  }

  /** Two of four records missing: they are listed as records 3 and 4,
      whether records are matched on their joined values or on the values
      themselves. */
  lemma SubsetData()
    ensures Rectangular(Accuzip4) && Rectangular(Client2)
    ensures CompareDatasets(Accuzip4, Client2, Mapping1) ==
      Some(Comparison(4, 2, 2, [Mismatch(3, ["c"], MissingStatus), Mismatch(4, ["d"], MissingStatus)]))
    ensures CompareDatasetsByCells(Accuzip4, Client2, Mapping1) ==
      Some(Comparison(4, 2, 2, [Mismatch(3, ["c"], MissingStatus), Mismatch(4, ["d"], MissingStatus)]))
  {
    SingleKeys();
    SubsetCompare(JoinedKey);
    SubsetCompare(TupleKey);
  }

  /** The frames of the collision: one record with first name "a_b" and
      last name "c", one client record with "a" and "b_c", the columns
      mapped to themselves. */
  const Names: seq<string> := ["first", "last"]
  const Record: Frame := Frame(Names, [["a_b", "c"]])
  const ClientRecord: Frame := Frame(Names, [["a", "b_c"]])
  const SameNames: seq<(string, string)> := [("first", "first"), ("last", "last")]

  lemma CollideSelection()
    ensures SelectionOf(Record, ClientRecord, SameNames) == Some(Selection([0, 1], [0, 1]))
  {
    assert Sources(SameNames) == Names;
    assert Targets(SameNames) == Names;
    assert |Names[0]| != |Names[1]|;
    SelectSelf(Names);
    assert Positions(2) == [0, 1];
  }

  lemma CollideValues()
    ensures Values(["a_b", "c"], [0, 1]) == ["a_b", "c"]
    ensures Values(["a", "b_c"], [0, 1]) == ["a", "b_c"]
  {
    NormalUnchanged("a_b");
    NormalUnchanged("c");
    NormalUnchanged("a");
    NormalUnchanged("b_c");
  }

  /** Both records join to "a_b_c". */
  lemma JoinsCollide()
    ensures Join(["a_b", "c"], "_") == Join(["a", "b_c"], "_")
  {
    assert ["a_b", "c"][..1] == ["a_b"];
    assert ["a", "b_c"][..1] == ["a"];
    assert "a_b" + "_" + "c" == "a" + "_" + "b_c";
  }

  lemma CollideShapes()
    ensures Rectangular(Record) && Rectangular(ClientRecord)
    ensures Within(Record, ClientRecord, Selection([0, 1], [0, 1]))
    ensures |Record.rows| == 1 && |ClientRecord.rows| == 1
  {
  }

  /** The keys of the two records, stripped and lower-cased. */
  lemma CollideKeys()
    ensures Within(Record, ClientRecord, Selection([0, 1], [0, 1]))
    ensures SourceKey(TupleKey, Record, Selection([0, 1], [0, 1]), 0) == ["a_b", "c"]
    ensures TargetKey(TupleKey, ClientRecord, Selection([0, 1], [0, 1]), 0) == ["a", "b_c"]
    ensures SourceKey(JoinedKey, Record, Selection([0, 1], [0, 1]), 0) == [Join(["a_b", "c"], "_")]
    ensures TargetKey(JoinedKey, ClientRecord, Selection([0, 1], [0, 1]), 0) == [Join(["a", "b_c"], "_")]
  {
    CollideShapes();
    CollideValues();
  }

  lemma AsWrittenFound(df1: Frame, df2: Frame, m: seq<(string, string)>)
    requires df1 == Record && df2 == ClientRecord && m == SameNames
    ensures Rectangular(df1) && Rectangular(df2)
    ensures CompareDatasets(df1, df2, m) == Some(Comparison(1, 1, 0, []))
  {
    CollideShapes();
    CollideSelection();
    CollideKeys();
    JoinsCollide();
    OneRecordCompare(JoinedKey, df1, df2, m);
  }

  lemma IntendedMissing(df1: Frame, df2: Frame, m: seq<(string, string)>)
    requires df1 == Record && df2 == ClientRecord && m == SameNames
    ensures Rectangular(df1) && Rectangular(df2)
    ensures CompareDatasetsByCells(df1, df2, m) == Some(Comparison(1, 0, 1, [Mismatch(1, ["a_b", "c"], MissingStatus)]))
  {
    CollideShapes();
    CollideSelection();
    CollideKeys();
    assert ["a_b", "c"] != ["a", "b_c"] by {
      assert |["a_b", "c"][0]| != |["a", "b_c"][0]|;
    }
    OneRecordCompare(TupleKey, df1, df2, m);
  }

  /** Joining the values with "_" loses where one value ends: as written,
      the record counts as found in the client file; compared on the
      values themselves it is missing. */
  lemma JoinedKeyCollides()
    ensures Rectangular(Record) && Rectangular(ClientRecord)
    ensures CompareDatasets(Record, ClientRecord, SameNames) == Some(Comparison(1, 1, 0, []))
    ensures CompareDatasetsByCells(Record, ClientRecord, SameNames) ==
      Some(Comparison(1, 0, 1, [Mismatch(1, ["a_b", "c"], MissingStatus)]))
  {
    AsWrittenFound(Record, ClientRecord, SameNames);
    IntendedMissing(Record, ClientRecord, SameNames);
  }
}
