/** The computational part of com.epam.ta.database.dao.NewsDAO: the text of the
    batch-delete statement, and the mapping of result rows to News objects.
    The SQL text the query catalogue holds for the batch delete is passed in as
    `prefix`; a result set is a sequence of rows of column values. */
module NewsDao {

  import opened Wrappers
  import opened JavaLang
  import opened NewsModel

  // ---------------------------------------------------------------------------
  // deleteGroupQuery

  /** What StringBuilder.append(String) adds: the characters, or "null". */
  function AppendText(s: JString): string
  {
    match s
    case None => "null"
    case Some(t) => t
  }

  /** The text each id contributes, in order. */
  function Texts(ids: seq<JString>): (r: seq<string>)
    ensures |r| == |ids|
  {
    if |ids| == 0 then [] else Texts(ids[..|ids| - 1]) + [AppendText(ids[|ids| - 1])]
  }

  lemma {:induction false} TextsAt(ids: seq<JString>, k: nat)
    requires k < |ids|
    ensures Texts(ids)[k] == AppendText(ids[k])
  {
    if k < |ids| - 1 {
      TextsAt(ids[..|ids| - 1], k);
    }
  }

  /** The parts with `sep` between each two neighbours. */
  function Join(parts: seq<string>, sep: string): string
  {
    if |parts| == 0 then ""
    else if |parts| == 1 then parts[0]
    else Join(parts[..|parts| - 1], sep) + sep + parts[|parts| - 1]
  }

  /** The statement deleteGroupQuery builds from the catalogue text `prefix`
      and the selected ids: it keeps the prefix at its head and ends with the
      closing parenthesis. */
  function GroupQuery(prefix: string, ids: seq<JString>): (q: string)
    ensures |q| > |prefix|
    ensures q[..|prefix|] == prefix && q[|q| - 1] == ')'
  {
    prefix + Join(Texts(ids), ",") + ")"
  }

  /** `deleteGroupQuery(String[])`: appends each id in turn to the prefix, a
      comma after every id but the last, then the closing parenthesis. */
  method DeleteGroupQuery(prefix: string, selectedNews: array<JString>)
    returns (query: string)
    ensures query == GroupQuery(prefix, selectedNews[..])
  {
    ghost var parts := Texts(selectedNews[..]);
    query := prefix;
    var len := selectedNews.Length;
    for i := 0 to len
      invariant query == prefix + Join(parts[..i], ",") + (if 0 < i < len then "," else "")
    {
      JoinPrefixStep(parts, i, ",");
      TextsAt(selectedNews[..], i);
      assert parts[i] == AppendText(selectedNews[i]);
      query := query + AppendText(selectedNews[i]);
      assert query == prefix + Join(parts[..i + 1], ",");
      if i < len - 1 {
        query := query + ",";
      }
    }
    assert parts[..len] == parts;
    query := query + ")";
  }

  /** Join over one more part of a prefix of `parts`: the step the loop of
      DeleteGroupQuery takes. */
  lemma JoinPrefixStep(parts: seq<string>, i: nat, sep: string)
    requires i < |parts|
    ensures Join(parts[..i + 1], sep)
      == if i == 0 then parts[0] else Join(parts[..i], sep) + sep + parts[i]
  {
    assert parts[..i + 1][..i] == parts[..i];
  }

  /** Joining two non-empty runs of parts is joining each and putting `sep`
      between. */
  lemma {:induction false} JoinAppend(x: seq<string>, y: seq<string>, sep: string)
    requires |x| >= 1 && |y| >= 1
    ensures Join(x + y, sep) == Join(x, sep) + sep + Join(y, sep)
    decreases |y|
  {
    var n := |y|;
    if n == 1 {
      assert (x + y)[..|x + y| - 1] == x;
    } else {
      var init := y[..n - 1];
      assert (x + y)[..|x + y| - 1] == x + init;
      JoinAppend(x, init, sep);
    }
  }

  function SumLengths(parts: seq<string>): nat
  {
    if |parts| == 0 then 0 else SumLengths(parts[..|parts| - 1]) + |parts[|parts| - 1]|
  }

  lemma {:induction false} JoinLength(parts: seq<string>, sep: string)
    ensures |Join(parts, sep)| == SumLengths(parts) + (if |parts| == 0 then 0 else (|parts| - 1) * |sep|)
  {
    if |parts| >= 2 {
      JoinLength(parts[..|parts| - 1], sep);
    } else if |parts| == 1 {
      assert parts[..0] == [];
    }
  }

  /** The length of the statement: the prefix, every id's text, one comma
      fewer than there are ids (none for no ids), and the parenthesis. */
  lemma GroupQueryLength(prefix: string, ids: seq<JString>)
    ensures |GroupQuery(prefix, ids)|
      == |prefix| + SumLengths(Texts(ids)) + (if |ids| == 0 then 0 else |ids| - 1) + 1
  {
    JoinLength(Texts(ids), ",");
  }

  /** For no ids the statement is the prefix and ")"; for one id there is no
      comma, and a null id is written as "null". */
  lemma GroupQueryShape(prefix: string, ids: seq<JString>)
    ensures |ids| == 0 ==> GroupQuery(prefix, ids) == prefix + ")"
    ensures |ids| == 1 ==> GroupQuery(prefix, ids) == prefix + AppendText(ids[0]) + ")"
    ensures |ids| == 1 && ids[0].None? ==> GroupQuery(prefix, ids) == prefix + "null)"
  {
  }

  function CountChar(s: string, c: char): nat
  {
    if |s| == 0 then 0 else CountChar(s[..|s| - 1], c) + (if s[|s| - 1] == c then 1 else 0)
  }

  lemma {:induction false} CountCharAppend(s: string, t: string, c: char)
    ensures CountChar(s + t, c) == CountChar(s, c) + CountChar(t, c)
    decreases |t|
  {
    if |t| == 0 {
      assert s + t == s;
    } else {
      assert (s + t)[..|s + t| - 1] == s + t[..|t| - 1];
      CountCharAppend(s, t[..|t| - 1], c);
    }
  }

  function SumCounts(parts: seq<string>, c: char): nat
  {
    if |parts| == 0 then 0 else SumCounts(parts[..|parts| - 1], c) + CountChar(parts[|parts| - 1], c)
  }

  lemma {:induction false} JoinCommas(parts: seq<string>)
    ensures CountChar(Join(parts, ","), ',')
      == SumCounts(parts, ',') + (if |parts| == 0 then 0 else |parts| - 1)
  {
    if |parts| >= 2 {
      var init := parts[..|parts| - 1];
      JoinCommas(init);
      CountCharAppend(Join(init, ","), ",", ',');
      CountCharAppend(Join(init, ",") + ",", parts[|parts| - 1], ',');
      assert CountChar(",", ',') == 1 by {
        assert ","[..0] == "";
      }
    } else if |parts| == 1 {
      assert parts[..0] == [];
    }
  }

  /** Between the prefix and ")" the statement holds exactly one comma fewer
      than there are ids besides the commas inside the ids themselves. */
  lemma GroupQuerySeparators(prefix: string, ids: seq<JString>)
    ensures var q := GroupQuery(prefix, ids);
      CountChar(q[|prefix|..|q| - 1], ',')
        == SumCounts(Texts(ids), ',') + (if |ids| == 0 then 0 else |ids| - 1)
  {
    var q := GroupQuery(prefix, ids);
    assert q[|prefix|..|q| - 1] == Join(Texts(ids), ",");
    JoinCommas(Texts(ids));
  }

  /** Where part k begins in the joined text: after the k parts before it and
      one comma after each. */
  function PartOffset(parts: seq<string>, k: nat): nat
    requires k <= |parts|
  {
    SumLengths(parts[..k]) + k
  }

  lemma {:induction false} JoinPartAt(parts: seq<string>, k: nat)
    requires k < |parts|
    ensures var j, off := Join(parts, ","), PartOffset(parts, k);
      off + |parts[k]| <= |j|
      && j[off..off + |parts[k]|] == parts[k]
      && (k < |parts| - 1 ==> off + |parts[k]| < |j| && j[off + |parts[k]|] == ',')
    decreases |parts|
  {
    var n := |parts|;
    var j := Join(parts, ",");
    if n == 1 {
      assert parts[..0] == [];
    } else {
      var init := parts[..n - 1];
      var ji := Join(init, ",");
      assert j == ji + "," + parts[n - 1];
      JoinLength(init, ",");
      assert init[..k] == parts[..k];
      if k == n - 1 {
        assert init == parts[..k];
        assert j[|ji| + 1..] == parts[n - 1];
      } else {
        JoinPartAt(init, k);
        var off := PartOffset(parts, k);
        assert PartOffset(init, k) == off;
        if k == n - 2 {
          assert init[..k + 1] == init;
          assert SumLengths(init) == SumLengths(init[..k]) + |init[k]|;
        }
        assert j[off..off + |parts[k]|] == ji[off..off + |parts[k]|];
      }
    }
  }

  /** Every id's text appears verbatim and in array order: id k starts after
      the prefix, the k texts before it and k commas, and a comma follows
      every id but the last. */
  lemma GroupQueryIdsInOrder(prefix: string, ids: seq<JString>, k: nat)
    requires k < |ids|
    ensures |prefix| + PartOffset(Texts(ids), k) + |AppendText(ids[k])| < |GroupQuery(prefix, ids)|
    ensures GroupQuery(prefix, ids)[|prefix| + PartOffset(Texts(ids), k)..
                                    |prefix| + PartOffset(Texts(ids), k) + |AppendText(ids[k])|]
      == AppendText(ids[k])
    ensures k < |ids| - 1 ==>
      GroupQuery(prefix, ids)[|prefix| + PartOffset(Texts(ids), k) + |AppendText(ids[k])|] == ','
  {
    var parts := Texts(ids);
    TextsAt(ids, k);
    JoinPartAt(parts, k);
    PlaceInQuery(prefix, Join(parts, ","), PartOffset(parts, k), parts[k], k < |ids| - 1);
  }

  /** A piece found at `off` in the joined ids is found |prefix| further on in
      the statement. */
  lemma PlaceInQuery(prefix: string, j: string, off: nat, t: string, comma: bool)
    requires off + |t| <= |j| && j[off..off + |t|] == t
    requires comma ==> off + |t| < |j| && j[off + |t|] == ','
    ensures |prefix| + off + |t| < |prefix + j + ")"|
    ensures (prefix + j + ")")[|prefix| + off..|prefix| + off + |t|] == t
    ensures comma ==> (prefix + j + ")")[|prefix| + off + |t|] == ','
  {
    assert (prefix + j + ")")[|prefix|..|prefix| + |j|] == j;
  }

  /** Splitting at every `sep`, keeping empty pieces: the inverse of Join. */
  function Split(s: string, sep: char): (pieces: seq<string>)
    ensures |pieces| >= 1
  {
    if |s| == 0 then [""]
    else
      var rest := Split(s[1..], sep);
      if s[0] == sep then [""] + rest else [[s[0]] + rest[0]] + rest[1..]
  }

  lemma {:induction false} SplitWithout(s: string, sep: char)
    requires sep !in s
    ensures Split(s, sep) == [s]
  {
    if |s| != 0 {
      SplitWithout(s[1..], sep);
      assert [s[0]] + s[1..] == s;
    }
  }

  lemma {:induction false} SplitAround(a: string, b: string, sep: char)
    ensures Split(a + [sep] + b, sep) == Split(a, sep) + Split(b, sep)
  {
    if |a| == 0 {
      assert a + [sep] + b == [sep] + b;
      assert ([sep] + b)[1..] == b;
    } else {
      assert (a + [sep] + b)[1..] == a[1..] + [sep] + b;
      SplitAround(a[1..], b, sep);
    }
  }

  /** Joining with "," and splitting at ',' gives back the parts when there
      is at least one and none contains a comma. */
  lemma {:induction false} SplitJoin(parts: seq<string>)
    requires |parts| >= 1
    requires forall k :: 0 <= k < |parts| ==> ',' !in parts[k]
    ensures Split(Join(parts, ","), ',') == parts
  {
    var n := |parts|;
    if n == 1 {
      SplitWithout(parts[0], ',');
    } else {
      var init := parts[..n - 1];
      SplitJoin(init);
      assert Join(parts, ",") == Join(init, ",") + [','] + parts[n - 1];
      SplitAround(Join(init, ","), parts[n - 1], ',');
      SplitWithout(parts[n - 1], ',');
      assert init + [parts[n - 1]] == parts;
    }
  }

  /** Splitting at ',' and joining with "," gives back any text. */
  lemma {:induction false} JoinSplit(s: string)
    ensures Join(Split(s, ','), ",") == s
    decreases |s|
  {
    if ',' !in s {
      SplitWithout(s, ',');
    } else {
      var i :| 0 <= i < |s| && s[i] == ',';
      var a, b := s[..i], s[i + 1..];
      assert s == a + [','] + b;
      SplitAround(a, b, ',');
      JoinSplit(a);
      JoinSplit(b);
      JoinAppend(Split(a, ','), Split(b, ','), ",");
    }
  }

  /** The ids can be read back from the statement: when there is at least one
      id and no id's text contains a comma, splitting what lies between the
      prefix and the final ")" at ',' yields the ids' texts in order. */
  lemma GroupQueryRoundTrip(prefix: string, ids: seq<JString>)
    requires |ids| >= 1
    requires forall k :: 0 <= k < |ids| ==> ',' !in AppendText(ids[k])
    ensures var q := GroupQuery(prefix, ids);
      Split(q[|prefix|..|q| - 1], ',') == Texts(ids)
  {
    var q := GroupQuery(prefix, ids);
    assert q[|prefix|..|q| - 1] == Join(Texts(ids), ",");
    forall k | 0 <= k < |ids| ensures ',' !in Texts(ids)[k] {
      TextsAt(ids, k);
    }
    SplitJoin(Texts(ids));
  }

  /** Without the comma-free condition the ids cannot be read back: one id
      "1,2" gives the same statement as the two ids "1" and "2". */
  lemma GroupQueryAmbiguous(prefix: string)
    ensures GroupQuery(prefix, [Some("1,2")]) == GroupQuery(prefix, [Some("1"), Some("2")])
  {
    assert Texts([Some("1"), Some("2")]) == ["1", "2"];
    assert Texts([Some("1,2")]) == ["1,2"];
    assert ["1", "2"][..1] == ["1"];
  }

  // ---------------------------------------------------------------------------
  // buildNews and buildNewsList

  /** A column value of a result row. */
  datatype SqlValue = SqlNull | SqlBigInt(n: JavaLong) | SqlVarchar(s: string)

  /** One row of a result set; JDBC numbers its columns from 1. */
  type Row = seq<SqlValue>

  /** The SQLExceptions a column getter raises. */
  datatype SqlError = InvalidColumnIndex(index: int) | NotConvertible(index: int)

  /** NewsDAOException wrapping the SQLException it caught. */
  datatype DaoError = NewsDaoException(cause: SqlError)

  const NewsIdColumnIndex := 1
  const TitleColumnIndex := 2
  const BriefColumnIndex := 3
  const ContentColumnIndex := 4
  const DateOfPublishingColumnIndex := 5

  /** ResultSet.getLong: SQL NULL reads as 0. */
  function GetLong(row: Row, columnIndex: int): Result<JavaLong, SqlError>
  {
    if !(1 <= columnIndex <= |row|) then Err(InvalidColumnIndex(columnIndex))
    else match row[columnIndex - 1]
      case SqlNull => Ok(0)
      case SqlBigInt(n) => Ok(n)
      case SqlVarchar(_) => Err(NotConvertible(columnIndex))
  }

  /** ResultSet.getString: SQL NULL reads as null, and a numeric column reads
      as its decimal text. */
  function GetString(row: Row, columnIndex: int): Result<JString, SqlError>
  {
    if !(1 <= columnIndex <= |row|) then Err(InvalidColumnIndex(columnIndex))
    else match row[columnIndex - 1]
      case SqlNull => Ok(None)
      case SqlBigInt(n) => Ok(Some(LongToString(n)))
      case SqlVarchar(s) => Ok(Some(s))
  }

  /** The field values buildNews reads from a row, in the order it reads
      them, or the first SQLException a getter raises. A record needs all five
      columns; an error names one of the five columns, a missing column is
      reported as the first one past the row's end, and only the id column can
      fail to convert. */
  function RowRecord(row: Row): (r: Result<NewsRecord, SqlError>)
    ensures r.Ok? ==> |row| >= 5
    ensures r.Err? ==> 1 <= r.error.index <= 5
    ensures r.Err? && r.error.InvalidColumnIndex? ==> r.error.index == |row| + 1
    ensures r.Err? && r.error.NotConvertible? ==> r.error.index <= |row|
    ensures r.Err? && r.error.NotConvertible? ==> r.error.index == 1
  {
    var newsId :- GetLong(row, NewsIdColumnIndex);
    var title :- GetString(row, TitleColumnIndex);
    var brief :- GetString(row, BriefColumnIndex);
    var content :- GetString(row, ContentColumnIndex);
    var date :- GetString(row, DateOfPublishingColumnIndex);
    Ok(NewsRecord(newsId, title, brief, content, date))
  }

  /** The row the news table stores for a record: id, title, brief, content,
      date of publishing, nulls as SQL NULL. */
  function TableRow(v: NewsRecord): Row
  {
    [SqlBigInt(v.newsId), Column(v.title), Column(v.brief), Column(v.content),
     Column(v.dateOfPublishing)]
  }

  function Column(s: JString): SqlValue
  {
    match s
    case None => SqlNull
    case Some(t) => SqlVarchar(t)
  }

  /** Column 1 is the id, 2 the title, 3 the brief, 4 the content and 5 the
      date: reading back a stored row, with any further columns after it,
      gives the record that was stored. */
  lemma RowRecordOfTableRow(v: NewsRecord, extra: Row)
    ensures RowRecord(TableRow(v) + extra) == Ok(v)
  {
  }

  /** A row maps to a record exactly when it has at least five columns and
      the first is not text; otherwise the error names the first offending
      column. */
  lemma RowRecordErrors(row: Row)
    ensures RowRecord(row).Ok? <==> |row| >= 5 && !row[0].SqlVarchar?
    ensures |row| == 0 ==> RowRecord(row) == Err(InvalidColumnIndex(1))
    ensures |row| >= 1 && row[0].SqlVarchar? ==> RowRecord(row) == Err(NotConvertible(1))
  {
  }

  /** getString reads a numeric title column as the number's decimal text, so
      the row still maps, and the title parses back to the stored number. */
  lemma RowRecordNumericTitle(row: Row)
    requires |row| >= 5 && !row[0].SqlVarchar? && row[1].SqlBigInt?
    ensures RowRecord(row).Ok? && RowRecord(row).value.title.Some?
    ensures ParseDecimal(RowRecord(row).value.title.value) == row[1].n
  {
    LongToStringRoundTrip(row[1].n);
  }

  /** `buildNews(ResultSet)`: a new News holding the row's five columns, or
      NewsDAOException when a getter raises SQLException. */
  method BuildNews(row: Row) returns (r: Result<News, DaoError>)
    ensures r.Ok? <==> RowRecord(row).Ok?
    ensures r.Ok? ==> fresh(r.value) && r.value.Value() == RowRecord(row).value
    ensures r.Err? ==> r.error == NewsDaoException(RowRecord(row).error)
  {
    var rec := RowRecord(row);
    if rec.Err? {
      return Err(NewsDaoException(rec.error));
    }
    var v := rec.value;
    var news := new News(v.newsId, v.title, v.brief, v.content, v.dateOfPublishing);
    r := Ok(news);
  }

  /** The records of the rows in row order, or the error of the first row
      that does not map. */
  function RowsRecords(rows: seq<Row>): (r: Result<seq<NewsRecord>, SqlError>)
    ensures r.Ok? ==> |r.value| == |rows|
  {
    if |rows| == 0 then Ok([])
    else
      var init :- RowsRecords(rows[..|rows| - 1]);
      var last :- RowRecord(rows[|rows| - 1]);
      Ok(init + [last])
  }

  /** The list has one record per row, in row order, each the one the row
      maps to; it fails exactly when some row fails, with the error of the
      first such row. */
  lemma {:induction false} RowsRecordsSpec(rows: seq<Row>)
    ensures RowsRecords(rows).Ok? <==> forall k :: 0 <= k < |rows| ==> RowRecord(rows[k]).Ok?
    ensures RowsRecords(rows).Ok? ==>
      |RowsRecords(rows).value| == |rows|
      && forall k :: 0 <= k < |rows| ==> RowsRecords(rows).value[k] == RowRecord(rows[k]).value
    ensures RowsRecords(rows).Err? ==>
      exists k :: 0 <= k < |rows| && (forall j :: 0 <= j < k ==> RowRecord(rows[j]).Ok?)
                  && RowRecord(rows[k]).Err? && RowsRecords(rows).error == RowRecord(rows[k]).error
  {
    if |rows| != 0 {
      var init := rows[..|rows| - 1];
      RowsRecordsSpec(init);
      assert forall k :: 0 <= k < |init| ==> init[k] == rows[k];
    }
  }

  /** `buildNewsList(ResultSet)`: one new News per row, in row order, each
      built as buildNews builds it; the first row buildNews rejects aborts the
      list with its NewsDAOException. */
  method BuildNewsList(rows: seq<Row>) returns (r: Result<seq<News>, DaoError>)
    ensures r.Ok? <==> RowsRecords(rows).Ok?
    ensures r.Ok? ==> |r.value| == |rows|
    ensures r.Ok? ==> forall k :: 0 <= k < |rows| ==>
      fresh(r.value[k]) && r.value[k].Value() == RowsRecords(rows).value[k]
    ensures r.Ok? ==> forall j, k :: 0 <= j < k < |rows| ==> r.value[j] != r.value[k]
    ensures r.Err? ==> r.error == NewsDaoException(RowsRecords(rows).error)
  {
    var newsList: seq<News> := [];
    var i := 0;
    while i < |rows|
      invariant 0 <= i <= |rows|
      invariant RowsRecords(rows[..i]).Ok?
      invariant |newsList| == i
      invariant forall k :: 0 <= k < i ==> fresh(newsList[k]) && newsList[k].Value() == RowsRecords(rows[..i]).value[k]
      invariant forall j, k :: 0 <= j < k < i ==> newsList[j] != newsList[k]
    {
      assert rows[..i + 1][..i] == rows[..i];
      var news := BuildNews(rows[i]);
      if news.Err? {
        RowsRecordsPrefixErr(rows, i + 1);
        return Err(news.error);
      }
      newsList := newsList + [news.value];
      i := i + 1;
    }
    assert rows[..i] == rows;
    r := Ok(newsList);
  }

  /** Once a prefix of the rows fails, the whole sequence fails the same way. */
  lemma {:induction false} RowsRecordsPrefixErr(rows: seq<Row>, i: nat)
    requires i <= |rows|
    requires RowsRecords(rows[..i]).Err?
    ensures RowsRecords(rows) == RowsRecords(rows[..i])
    decreases |rows| - i
  {
    if i < |rows| {
      assert rows[..i + 1][..i] == rows[..i];
      RowsRecordsPrefixErr(rows, i + 1);
    } else {
      assert rows[..i] == rows;
    }
  }
}
