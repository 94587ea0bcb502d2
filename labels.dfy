/** Which raw device labels from the input table are sent to the providers:
    header cleaning, the skip predicate, and the selection loop. */
module LabelFilter {
  import opened Common
  import opened PyText

  /** Python's `str.isdigit` restricted to the ASCII decimal digits. */
  predicate IsDigitChar(c: char)
  {
    '0' <= c <= '9'
  }

  /** The CJK Unified Ideographs block, U+4E00..U+9FFF. */
  predicate IsCjkChar(c: char)
  {
    '\U{4E00}' <= c <= '\U{9FFF}'
  }

  /** `s.isdigit()`: false on the empty string. */
  predicate IsPureDigit(s: string)
  {
    |s| > 0 && forall i :: 0 <= i < |s| ==> IsDigitChar(s[i])
  }

  /** `re.fullmatch(r"[一-鿿]+", s)`: one or more ideographs. */
  predicate IsPureChinese(s: string)
  {
    |s| > 0 && forall i :: 0 <= i < |s| ==> IsCjkChar(s[i])
  }

  /** The four drop rules, tried in order: empty, at most four
      characters, all digits, all ideographs. */
  function ShouldSkip(d: string): bool
  {
    if d == [] then true
    else if |d| <= 4 then true
    else if IsPureDigit(d) then true
    else if IsPureChinese(d) then true
    else false
  }

  /** A label is kept exactly when it has at least five characters, at
      least one of which is not a digit and at least one of which lies
      outside the ideograph block. */
  lemma KeptIff(d: string)
    ensures !ShouldSkip(d) <==> (&& |d| >= 5
                                 && (exists i :: 0 <= i < |d| && !IsDigitChar(d[i]))
                                 && (exists j :: 0 <= j < |d| && !IsCjkChar(d[j])))
  {
  }

  /** The worked examples of the filter: dropped by length, by being all
      digits, by being all ideographs; and a model code that is kept. */
  lemma FilterExamples()
    ensures ShouldSkip("1234")
    ensures ShouldSkip("12345678")
    ensures ShouldSkip("\U{4E2D}\U{6587}\U{8BBE}\U{5907}\U{540D}")
    ensures !ShouldSkip("TAS-AN00")
  {
    KeptIff("TAS-AN00");
    assert !IsDigitChar("TAS-AN00"[0]) && !IsCjkChar("TAS-AN00"[0]);
  }

  /** `k.strip().strip('"')`. */
  function CleanKey(k: string): (c: string)
    ensures c != [] ==> c[0] != '"' && c[|c| - 1] != '"'
  {
    Strip(Strip(k, SpaceChars), QuoteChars)
  }

  /** The raw cells of one input row, in header order: a header name with
      its cell, or None where the row is shorter than the header. Repeated
      header names are allowed, as `csv.DictReader` allows them. */
  type RawRow = seq<(string, Option<string>)>

  /** `row.items()` of the dict `csv.DictReader` builds, with every key
      cleaned: one pair per distinct raw name, in first-occurrence order,
      holding the cell of that name's last column. */
  function CleanedItems(row: RawRow): (ps: seq<(string, Option<string>)>)
    ensures Keys(ps) == set i | 0 <= i < |row| :: CleanKey(row[i].0)
  {
    var items := DictItems(row);
    var ps := seq(|items|, i requires 0 <= i < |items| => (CleanKey(items[i].0), items[i].1));
    CleanedKeys(row, items, ps);
    ps
  }

  lemma CleanedKeys(row: RawRow, items: RawRow, ps: seq<(string, Option<string>)>)
    requires Keys(items) == Keys(row) && |ps| == |items|
    requires forall i :: 0 <= i < |ps| ==> ps[i].0 == CleanKey(items[i].0)
    ensures Keys(ps) == set i | 0 <= i < |row| :: CleanKey(row[i].0)
  {
    forall c | c in Keys(ps) ensures c in set i | 0 <= i < |row| :: CleanKey(row[i].0) {
      var i :| 0 <= i < |ps| && ps[i].0 == c;
      assert items[i].0 in Keys(row);
    }
    forall c | c in set i | 0 <= i < |row| :: CleanKey(row[i].0) ensures c in Keys(ps) {
      var i :| 0 <= i < |row| && CleanKey(row[i].0) == c;
      assert row[i].0 in Keys(items);
      var j :| 0 <= j < |items| && items[j].0 == row[i].0;
      assert ps[j].0 == c;
    }
  }

  /** `clean_row_keys`: a dict keyed by cleaned header names; when two
      names clean to the same key the later item wins. */
  function CleanRowKeys(row: RawRow): (m: map<string, Option<string>>)
    ensures m.Keys == set i | 0 <= i < |row| :: CleanKey(row[i].0)
  {
    LastWins(CleanedItems(row))
  }

  /** With distinct raw header names, where several of them clean to the
      same name, the cleaned dict holds the cell of the LAST such column. */
  lemma CleanRowKeysAt(row: RawRow, i: nat)
    requires DistinctKeys(row)
    requires i < |row|
    requires forall j :: i < j < |row| ==> CleanKey(row[j].0) != CleanKey(row[i].0)
    ensures CleanKey(row[i].0) in CleanRowKeys(row)
    ensures CleanRowKeys(row)[CleanKey(row[i].0)] == row[i].1
  {
    DictItemsDistinct(row);
    var ps := CleanedItems(row);
    assert forall j :: 0 <= j < |row| ==> ps[j] == (CleanKey(row[j].0), row[j].1);
    LastWinsAt(ps, i);
  }

  /** A repeated raw name keeps the position of its first column: with the
      header `x, " x", x` the reader's dict is `{x: c3, " x": c2}`, so after
      cleaning, the cell of the middle column wins. */
  lemma RepeatedHeaderKeepsFirstPosition(c1: Option<string>, c2: Option<string>, c3: Option<string>)
    ensures "x" in CleanRowKeys([("x", c1), (" x", c2), ("x", c3)])
    ensures CleanRowKeys([("x", c1), (" x", c2), ("x", c3)])["x"] == c2
  {
    var row := [("x", c1), (" x", c2), ("x", c3)];
    RepeatedHeaderItems(c1, c2, c3);
    CleanKeyExamples();
    var ps := CleanedItems(row);
    assert ps == [("x", c3), ("x", c2)];
    assert ps[..1] == [("x", c3)];
  }

  lemma RepeatedHeaderItems(c1: Option<string>, c2: Option<string>, c3: Option<string>)
    ensures DictItems([("x", c1), (" x", c2), ("x", c3)]) == [("x", c3), (" x", c2)]
  {
    var row := [("x", c1), (" x", c2), ("x", c3)];
    var items := [("x", c1), (" x", c2)];
    assert row[..2] == items;
    assert "x" != " x" by { assert |"x"| != |" x"|; }
    DictItemsDistinct(items);
    OverwriteFirst(items, c3);
  }

  lemma OverwriteFirst(items: seq<(string, Option<string>)>, c3: Option<string>)
    requires |items| == 2 && items[0].0 == "x" && items[1].0 != "x"
    ensures SetItem(items, "x", c3) == [("x", c3), items[1]]
  {
    var r := SetItem(items, "x", c3);
    assert items[0].0 in Keys(items);
    assert r[0] == ("x", c3) && r[1] == items[1];
  }

  lemma CleanKeyExamples()
    ensures CleanKey("x") == "x" && CleanKey(" x") == "x"
  {
    assert StartOfKept("x", SpaceChars, 0) == 0;
    assert StartOfKept("x", QuoteChars, 0) == 0;
    assert StartOfKept(" x", SpaceChars, 0) == 1;
    assert " x"[1..2] == "x";
  }

  /** `row.get("origin_device_model")` on the cleaned row, kept only when it
      is a non-empty label that the filter does not skip. */
  function LabelOf(row: RawRow): (found: Option<string>)
    ensures found.Some? ==> !ShouldSkip(found.value)
    ensures found.Some? ==> OriginField in CleanRowKeys(row) && CleanRowKeys(row)[OriginField] == found
    ensures found.None? ==> OriginField !in CleanRowKeys(row) || CleanRowKeys(row)[OriginField].None?
                            || ShouldSkip(CleanRowKeys(row)[OriginField].value)
  {
    var m := CleanRowKeys(row);
    var d := if OriginField in m then m[OriginField] else None;
    if d.Some? && d.value != [] && !ShouldSkip(d.value) then d else None
  }

  /** The labels kept from `rows`, in input order and with repeats. */
  function KeptLabels(rows: seq<RawRow>): (labels: seq<string>)
    ensures |labels| <= |rows|
  {
    if rows == [] then []
    else
      var last := rows[|rows| - 1];
      KeptLabels(rows[..|rows| - 1]) + (if LabelOf(last).Some? then [LabelOf(last).value] else [])
  }

  /** No label the filter drops is ever sent to a provider. */
  lemma {:induction false} KeptLabelsAreKept(rows: seq<RawRow>)
    ensures forall k :: 0 <= k < |KeptLabels(rows)| ==> !ShouldSkip(KeptLabels(rows)[k])
  {
    if rows != [] {
      KeptLabelsAreKept(rows[..|rows| - 1]);
    }
  }

  /** Selection distributes over splitting the input: the labels of
      `a + b` are those of `a` followed by those of `b`. Together with
      `KeptSingle` this fixes the order and multiplicity of the result. */
  lemma {:induction false} KeptLabelsAppend(a: seq<RawRow>, b: seq<RawRow>)
    ensures KeptLabels(a + b) == KeptLabels(a) + KeptLabels(b)
    decreases |b|
  {
    if b == [] {
      assert a + b == a;
    } else {
      var b' := b[..|b| - 1];
      assert (a + b)[..|a + b| - 1] == a + b';
      assert (a + b)[|a + b| - 1] == b[|b| - 1];
      KeptLabelsAppend(a, b');
    }
  }

  /** One row contributes its label exactly when the filter keeps it. */
  lemma KeptSingle(row: RawRow)
    ensures KeptLabels([row]) == if LabelOf(row).Some? then [LabelOf(row).value] else []
  {
    assert [row][..0] == [];
  }

  lemma KeptLabelsSnoc(rows: seq<RawRow>)
    requires rows != []
    ensures KeptLabels(rows) == KeptLabels(rows[..|rows| - 1])
      + (if LabelOf(rows[|rows| - 1]).Some? then [LabelOf(rows[|rows| - 1]).value] else [])
  {
  }

  /** The selection loop of the run: read each row, clean its header names,
      and append its label when the filter keeps it. */
  method SelectLabels(rows: seq<RawRow>) returns (devices: seq<string>)
    ensures devices == KeptLabels(rows)
  {
    devices := [];
    var n := 0;
    while n < |rows|
      invariant 0 <= n <= |rows|
      invariant devices == KeptLabels(rows[..n])
    {
      ghost var prefix := rows[..n + 1];
      assert prefix[..n] == rows[..n] && prefix[n] == rows[n];
      KeptLabelsSnoc(prefix);
      var found := LabelOf(rows[n]);
      if found.Some? {
        devices := devices + [found.value];
      }
      n := n + 1;
    }
    assert rows[..n] == rows;
  }
}
