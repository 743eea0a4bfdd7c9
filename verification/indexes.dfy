/** Indexes (index.go): the catalog record, the canonical index name used to
    compare declared and existing indexes, the `index:"..."` tag parser, and the
    text of the CREATE INDEX / DROP INDEX statements. */
module Indexes {
  import opened Results
  import opened Strings
  import opened Errors
  import opened Engine

  /** A row of the engine's `__Index` catalog, and a declared index. */
  datatype Index = Index(tableName: string, columnName: string, name: string, isUnique: bool)

  /** The pseudo-column of the implicit primary key and the marker that stands
      for it inside index names. */
  const PkeyColumn := "id()"
  const PkeyMarker := "id_pkey"

  /** `ToIndexName`: `<table>_<column>_idx`, with `id_pkey` for the primary key. */
  function ToIndexName(idx: Index): string {
    var cn := if idx.columnName == PkeyColumn then PkeyMarker else idx.columnName;
    idx.tableName + "_" + cn + "_idx"
  }

  /** The primary-key index is `<table>_id_pkey_idx`, which the reconciler's
      `_pkey` test recognises. */
  lemma PkeyIndexName(table: string, name: string, unique: bool)
    ensures ToIndexName(Index(table, PkeyColumn, name, unique)) == table + "_id_pkey_idx"
    ensures Contains(ToIndexName(Index(table, PkeyColumn, name, unique)), "_pkey")
  {
    var s := ToIndexName(Index(table, PkeyColumn, name, unique));
    assert s == table + "_id" + "_pkey" + "_idx";
    ContainsInfix(table + "_id", "_pkey", "_idx");
  }

  /** Every other column `c` gets `<table>_c_idx`. */
  lemma ColumnIndexName(table: string, column: string, name: string, unique: bool)
    requires column != PkeyColumn
    ensures ToIndexName(Index(table, column, name, unique)) == table + "_" + column + "_idx"
  {
  }

  /** Within one table the name determines the column, with one exception: a
      column literally called `id_pkey` gets the primary key's index name. */
  lemma ToIndexNameInjective(a: Index, b: Index)
    requires a.tableName == b.tableName && a.columnName != b.columnName
    requires ToIndexName(a) == ToIndexName(b)
    ensures {a.columnName, b.columnName} == {PkeyColumn, PkeyMarker}
  {
    var ca := if a.columnName == PkeyColumn then PkeyMarker else a.columnName;
    var cb := if b.columnName == PkeyColumn then PkeyMarker else b.columnName;
    var t := a.tableName + "_";
    var sa, sb := t + ca + "_idx", t + cb + "_idx";
    assert |ca| == |cb|;
    assert ca == sa[|t|..|t| + |ca|];
    assert cb == sb[|t|..|t| + |cb|];
  }

  lemma IdPkeyColumnCollides(table: string)
    ensures ToIndexName(Index(table, PkeyMarker, "", false)) == ToIndexName(Index(table, PkeyColumn, "", true))
  {
  }

  predicate IsHex(c: char) {
    ('0' <= c <= '9') || ('a' <= c <= 'f') || ('A' <= c <= 'F')
  }

  function HexValue(c: char): (v: nat)
    requires IsHex(c)
    ensures v < 16
  {
    if '0' <= c <= '9' then c as int - '0' as int
    else if 'a' <= c <= 'f' then c as int - 'a' as int + 10
    else c as int - 'A' as int + 10
  }

  /** `url.QueryUnescape`: `%XX` decodes to one character, `+` is a blank, and a
      `%` without two hex digits after it is an error. */
  function QueryUnescape(s: string): (r: Option<string>)
    ensures r.Some? ==> |r.value| <= |s|
    ensures '%' !in s ==> r.Some?
    ensures '%' !in s && '+' !in s ==> r == Some(s)
    decreases |s|
  {
    if |s| == 0 then Some("")
    else if s[0] == '%' then
      if |s| < 3 || !IsHex(s[1]) || !IsHex(s[2]) then None
      else
        var rest :- QueryUnescape(s[3..]);
        Some([(HexValue(s[1]) * 16 + HexValue(s[2])) as char] + rest)
    else
      assert s == [s[0]] + s[1..];
      var rest :- QueryUnescape(s[1..]);
      Some([if s[0] == '+' then ' ' else s[0]] + rest)
  }

  /** `strings.Cut(s, "=")`: the text before the first `=` and the text after it. */
  function CutAtEquals(s: string): (r: (string, string))
    ensures '=' !in s ==> r == (s, "")
    ensures '=' in s ==> s == r.0 + "=" + r.1 && '=' !in r.0
    decreases |s|
  {
    if |s| == 0 then ("", "")
    else if s[0] == '=' then ("", s[1..])
    else
      assert s == [s[0]] + s[1..];
      var (k, v) := CutAtEquals(s[1..]);
      ([s[0]] + k, v)
  }

  /** The keys of a query-string segment list, or None when a segment is
      malformed (a `;` in it, or a bad escape in its key or value). Empty
      segments are skipped. */
  function SegmentKeys(segments: seq<string>): Option<seq<string>>
    decreases |segments|
  {
    if |segments| == 0 then Some([])
    else
      var seg := segments[0];
      var rest :- SegmentKeys(segments[1..]);
      if ';' in seg then None
      else if seg == "" then Some(rest)
      else
        var (k, v) := CutAtEquals(seg);
        var key :- QueryUnescape(k);
        var _ :- QueryUnescape(v);
        Some([key] + rest)
  }

  /** `url.ParseQuery(strings.ReplaceAll(tag, ",", "&"))`, keeping the keys in
      the order they are written (duplicates included). */
  function ParseIndexTag(tag: string): Option<seq<string>> {
    SegmentKeys(Split(CommasToAmpersands(tag), '&'))
  }

  /** `strings.ReplaceAll(tag, ",", "&")`. */
  function CommasToAmpersands(tag: string): (r: string)
    ensures |r| == |tag|
    ensures forall i :: 0 <= i < |tag| ==> r[i] == (if tag[i] == ',' then '&' else tag[i])
    ensures ',' !in tag ==> r == tag
  {
    seq(|tag|, i requires 0 <= i < |tag| => if tag[i] == ',' then '&' else tag[i])
  }

  /** A single-option tag without separators, `=`, escapes or `+` parses to itself. */
  lemma {:induction false} SingleOptionTag(tag: string)
    requires tag != "" && ',' !in tag && '&' !in tag && ';' !in tag
    requires '=' !in tag && '%' !in tag && '+' !in tag
    ensures ParseIndexTag(tag) == Some([tag])
  {
    assert CommasToAmpersands(tag) == tag;
    SplitNoSeparator(tag, '&');
    assert [tag][1..] == [];
    assert CutAtEquals(tag) == (tag, "");
    assert QueryUnescape(tag) == Some(tag);
    assert QueryUnescape("") == Some("");
    assert SegmentKeys([]) == Some([]);
    assert SegmentKeys([tag]) == Some([tag]);
  }

  predicate IsUniqueOption(k: string) {
    k == "unique" || k == "uniq"
  }

  /** The `switch` over the parsed keys: either the unique flag, or the first key
      that is neither `unique` nor `uniq`. */
  function ScanOptions(keys: seq<string>): (r: Result<bool, string>)
    ensures r.Ok? <==> forall i :: 0 <= i < |keys| ==> IsUniqueOption(keys[i])
    ensures r.Ok? ==> (r.value <==> "unique" in keys || "uniq" in keys)
    ensures r.Err? ==> r.error in keys && !IsUniqueOption(r.error)
    decreases |keys|
  {
    if |keys| == 0 then Ok(false)
    else if IsUniqueOption(keys[0]) then
      var _ :- ScanOptions(keys[1..]);
      Ok(true)
    else Err(keys[0])
  }

  /** A tag the parser accepts and whose every option is `unique` or `uniq`. */
  predicate TagAccepted(tag: string) {
    && ParseIndexTag(tag).Some?
    && forall k :: k in ParseIndexTag(tag).value ==> IsUniqueOption(k)
  }

  /** The error a rejected tag produces. */
  function TagError(column: string, tag: string): Error
    requires !TagAccepted(tag)
  {
    match ParseIndexTag(tag)
    case None => InvalidIndexTag(column, tag)
    case Some(keys) => UnsupportedIndexKey(column, ScanOptions(keys).error)
  }

  /** One entry of `toIndexList`: the index declared on `column` by `tag`. */
  function ToIndex(column: string, tag: string, table: string): (r: Result<Index, Error>)
    ensures r.Ok? <==> TagAccepted(tag)
    ensures r.Ok? ==> r.value.tableName == table && r.value.columnName == column && r.value.name == ""
    ensures r.Ok? ==> (r.value.isUnique <==> "unique" in ParseIndexTag(tag).value || "uniq" in ParseIndexTag(tag).value)
    ensures r.Err? ==> r.error == TagError(column, tag)
  {
    match ParseIndexTag(tag)
    case None => Err(InvalidIndexTag(column, tag))
    case Some(keys) =>
      match ScanOptions(keys)
      case Err(bad) => Err(UnsupportedIndexKey(column, bad))
      case Ok(unique) => Ok(Index(table, column, "", unique))
  }

  /** The tag of key `order[i]` is the first rejected one along `order`, and `e` is its error. */
  predicate TagRejectedAt(indexes: map<string, string>, order: seq<string>, e: Error, i: int) {
    && 0 <= i < |order| && order[i] in indexes && !TagAccepted(indexes[order[i]])
    && e == TagError(order[i], indexes[order[i]])
    && forall j :: 0 <= j < i ==> order[j] in indexes && TagAccepted(indexes[order[j]])
  }

  /** `toIndexList(indexes, tableName)`, visiting the map's keys in `order`: one
      index per tagged column, or the error of the first rejected tag. */
  function ToIndexList(indexes: map<string, string>, order: seq<string>, table: string): (r: Result<seq<Index>, Error>)
    requires forall k :: k in order ==> k in indexes
    ensures r.Ok? <==> forall i :: 0 <= i < |order| ==> TagAccepted(indexes[order[i]])
    ensures r.Ok? ==> |r.value| == |order|
    ensures r.Ok? ==> forall i :: 0 <= i < |order| ==>
      r.value[i] == ToIndex(order[i], indexes[order[i]], table).value
    ensures r.Err? ==> exists i :: 0 <= i < |order| && TagRejectedAt(indexes, order, r.error, i)
    decreases |order|
  {
    if |order| == 0 then Ok([])
    else
      match ToIndex(order[0], indexes[order[0]], table)
      case Err(e) =>
        assert TagRejectedAt(indexes, order, e, 0);
        Err(e)
      case Ok(first) =>
        match ToIndexList(indexes, order[1..], table)
        case Err(e) =>
          TagRejectedLater(indexes, order, order[1..], e);
          Err(e)
        case Ok(rest) =>
          ToIndexListPrepends(indexes, order, table, rest);
          Ok([first] + rest)
  }

  /** A tag rejected after an accepted first tag is the first rejected along the whole order. */
  lemma TagRejectedLater(indexes: map<string, string>, order: seq<string>, tail: seq<string>, e: Error)
    requires |order| > 0 && tail == order[1..] && order[0] in indexes && TagAccepted(indexes[order[0]])
    requires exists i :: 0 <= i < |tail| && TagRejectedAt(indexes, tail, e, i)
    ensures exists i :: 0 <= i < |order| && TagRejectedAt(indexes, order, e, i)
    ensures exists i :: 0 <= i < |order| && order[i] in indexes && !TagAccepted(indexes[order[i]])
  {
    var i :| 0 <= i < |tail| && TagRejectedAt(indexes, tail, e, i);
    assert order[i + 1] == tail[i];
    assert TagRejectedAt(indexes, order, e, i + 1);
  }

  /** The index of the first key in front of the indexes of the rest. */
  lemma ToIndexListPrepends(indexes: map<string, string>, order: seq<string>, table: string, rest: seq<Index>)
    requires |order| > 0 && forall k :: k in order ==> k in indexes
    requires TagAccepted(indexes[order[0]])
    requires |rest| == |order| - 1
    requires forall i :: 0 <= i < |order| - 1 ==> TagAccepted(indexes[order[1..][i]])
    requires forall i :: 0 <= i < |order| - 1 ==> rest[i] == ToIndex(order[1..][i], indexes[order[1..][i]], table).value
    ensures forall i :: 0 <= i < |order| ==> TagAccepted(indexes[order[i]])
    ensures forall i :: 0 <= i < |order| ==>
      ([ToIndex(order[0], indexes[order[0]], table).value] + rest)[i] == ToIndex(order[i], indexes[order[i]], table).value
  {
    forall i | 1 <= i < |order|
      ensures TagAccepted(indexes[order[i]])
      ensures ([ToIndex(order[0], indexes[order[0]], table).value] + rest)[i] == ToIndex(order[i], indexes[order[i]], table).value
    {
      assert order[1..][i - 1] == order[i];
    }
  }

  /** The iteration order decides only the order of the list and which error is
      reported: any two orders over the same keys either both fail or give the
      same indexes. */
  lemma ToIndexListSameKeys(indexes: map<string, string>, order: seq<string>, other: seq<string>, table: string)
    requires forall k :: k in order ==> k in indexes
    requires forall k :: k in order <==> k in other
    ensures ToIndexList(indexes, order, table).Ok? <==> ToIndexList(indexes, other, table).Ok?
    ensures ToIndexList(indexes, order, table).Ok? ==>
      forall x :: x in ToIndexList(indexes, order, table).value <==> x in ToIndexList(indexes, other, table).value
  {
    assert forall i :: 0 <= i < |order| ==> order[i] in other;
    assert forall i :: 0 <= i < |other| ==> other[i] in order;
    if ToIndexList(indexes, order, table).Ok? && ToIndexList(indexes, other, table).Ok? {
      ToIndexListCovers(indexes, order, other, table);
      ToIndexListCovers(indexes, other, order, table);
    }
  }

  /** Every index built along one order is built along another over the same keys. */
  lemma ToIndexListCovers(indexes: map<string, string>, order: seq<string>, other: seq<string>, table: string)
    requires forall k :: k in order ==> k in indexes
    requires forall k :: k in order <==> k in other
    requires ToIndexList(indexes, order, table).Ok? && ToIndexList(indexes, other, table).Ok?
    ensures forall x :: x in ToIndexList(indexes, order, table).value ==> x in ToIndexList(indexes, other, table).value
  {
    var a, b := ToIndexList(indexes, order, table).value, ToIndexList(indexes, other, table).value;
    forall x | x in a ensures x in b {
      var i :| 0 <= i < |a| && a[i] == x;
      assert order[i] in other;
      var j :| 0 <= j < |other| && other[j] == order[i];
      assert b[j] == x;
    }
  }

  /** An empty tag (`index:""`) declares a plain, non-unique index. */
  lemma EmptyTagIsPlainIndex(column: string, table: string)
    ensures ToIndex(column, "", table) == Ok(Index(table, column, "", false))
  {
  }

  lemma UniqueTagIsUnique(column: string, table: string)
    ensures ToIndex(column, "unique", table) == Ok(Index(table, column, "", true))
    ensures ToIndex(column, "uniq", table) == Ok(Index(table, column, "", true))
  {
    SingleOptionIndex(column, "unique", table);
    SingleOptionIndex(column, "uniq", table);
  }

  /** A tag that is one plain option declares a unique index when the option
      is `unique` or `uniq`, and is rejected naming the option otherwise. */
  lemma SingleOptionIndex(column: string, tag: string, table: string)
    requires tag != "" && ',' !in tag && '&' !in tag && ';' !in tag
    requires '=' !in tag && '%' !in tag && '+' !in tag
    ensures IsUniqueOption(tag) ==> ToIndex(column, tag, table) == Ok(Index(table, column, "", true))
    ensures !IsUniqueOption(tag) ==> ToIndex(column, tag, table) == Err(UnsupportedIndexKey(column, tag))
  {
    SingleOptionTag(tag);
    assert [tag][1..] == [];
  }

  /** A single-segment tag whose escapes do not decode (a `%` without two hex
      digits after it) is rejected as invalid. */
  lemma BadEscapeRejected(column: string, tag: string, table: string)
    requires ',' !in tag && '&' !in tag && '=' !in tag
    requires QueryUnescape(tag).None?
    ensures ToIndex(column, tag, table) == Err(InvalidIndexTag(column, tag))
  {
    assert CommasToAmpersands(tag) == tag;
    SplitNoSeparator(tag, '&');
    assert [tag][1..] == [];
    assert SegmentKeys([]) == Some([]);
  }

  /** A segment holding `;` makes the whole segment list malformed. */
  lemma {:induction false} SemicolonSegmentRejected(segments: seq<string>, k: nat)
    requires k < |segments| && ';' in segments[k]
    ensures SegmentKeys(segments) == None
    decreases k
  {
    if k > 0 {
      SemicolonSegmentRejected(segments[1..], k - 1);
    }
  }

  /** A tag with `;` anywhere in it is rejected as invalid. */
  lemma SemicolonRejected(column: string, tag: string, table: string)
    requires ';' in tag
    ensures ToIndex(column, tag, table) == Err(InvalidIndexTag(column, tag))
  {
    var i :| 0 <= i < |tag| && tag[i] == ';';
    var s := CommasToAmpersands(tag);
    assert s[i] == ';';
    SplitKeepsChar(s, '&', ';');
    var k :| 0 <= k < |Split(s, '&')| && ';' in Split(s, '&')[k];
    SemicolonSegmentRejected(Split(s, '&'), k);
  }

  /** `createIndex`: the index is always named and created on the model's table,
      whatever table the record names; `unique ` appears exactly for unique ones. */
  function CreateIndexSQL(table: string, idx: Index): (r: string)
    ensures HasPrefix(r, "BEGIN TRANSACTION;create ") && HasSuffix(r, ";COMMIT;")
    ensures idx.isUnique <==> HasPrefix(r, "BEGIN TRANSACTION;create unique ")
  {
    var named := idx.(tableName := table);
    var head := "BEGIN TRANSACTION;create " + (if idx.isUnique then "unique " else "");
    var body := "index " + ToIndexName(named) + " on " + table + " (" + idx.columnName + ")";
    CreateIndexShape(idx.isUnique, body);
    head + body + ";COMMIT;"
  }

  /** The statement frame: `unique ` follows `create ` exactly when asked for,
      since the body after it starts with `index `. */
  lemma CreateIndexShape(unique: bool, body: string)
    requires HasPrefix(body, "index ")
    ensures var r := "BEGIN TRANSACTION;create " + (if unique then "unique " else "") + body + ";COMMIT;";
      && HasPrefix(r, "BEGIN TRANSACTION;create ") && HasSuffix(r, ";COMMIT;")
      && (unique <==> HasPrefix(r, "BEGIN TRANSACTION;create unique "))
  {
    var head := "BEGIN TRANSACTION;create " + (if unique then "unique " else "");
    var r := head + body + ";COMMIT;";
    assert r[..|head|] == head;
    assert r[|r| - 8..] == ";COMMIT;";
    if !unique {
      assert r[25] == body[0] == 'i';
    }
  }

  lemma CreateIndexUsesModelTable(table: string, idx: Index, other: string)
    ensures CreateIndexSQL(table, idx) == CreateIndexSQL(table, idx.(tableName := other))
  {
  }

  /** `dropIndex`. */
  function DropIndexSQL(name: string): (r: string)
    ensures HasPrefix(r, "BEGIN TRANSACTION;drop index ") && HasSuffix(r, ";COMMIT;")
  {
    "BEGIN TRANSACTION;drop index " + name + ";COMMIT;"
  }

  /** Regrouping the CREATE INDEX body word by word. */
  lemma IndexBodyRegroup(i: string, n: string, o: string, t: string, p: string, col: string, close: string,
                         i1: string, o1: string, p1: string)
    requires i == i1 + " " && o == " " + (o1 + " ") && p == " " + p1
    ensures i + n + o + t + p + col + close
      == i1 + " " + (n + " " + (o1 + " " + (t + " " + (p1 + col + close))))
  {
  }

  lemma FrameRegroup(b: string, w: string, w1: string, u: string, body: string, c: string)
    requires w == w1 + " "
    ensures b + w + u + body + c == b + (w1 + " " + (u + body)) + c
  {
  }

  /** The CREATE INDEX script with its first word and its body cut apart. */
  lemma CreateIndexFrame(table: string, idx: Index)
    ensures CreateIndexSQL(table, idx) == "BEGIN TRANSACTION;"
      + ("create" + " " + ((if idx.isUnique then "unique " else "")
         + ("index " + ToIndexName(idx.(tableName := table)) + " on " + table + " (" + idx.columnName + ")")))
      + ";COMMIT;"
  {
    var body := "index " + ToIndexName(idx.(tableName := table)) + " on " + table + " (" + idx.columnName + ")";
    assert "BEGIN TRANSACTION;create " == "BEGIN TRANSACTION;" + "create ";
    assert "create " == "create" + " ";
    FrameRegroup("BEGIN TRANSACTION;", "create ", "create", if idx.isUnique then "unique " else "", body, ";COMMIT;");
  }

  /** The CREATE INDEX body regrouped word by word. */
  lemma IndexBodyWords(name: string, table: string, column: string)
    ensures "index " + name + " on " + table + " (" + column + ")"
      == "index" + " " + (name + " " + ("on" + " " + (table + " " + ("(" + column + ")"))))
  {
    assert "index " == "index" + " " && " on " == " " + ("on" + " ") && " (" == " " + "(";
    IndexBodyRegroup("index ", name, " on ", table, " (", column, ")", "index", "on", "(");
  }

  /** The words of a CREATE INDEX statement, with or without `unique`. */
  lemma CreateIndexSplit(unique: bool, name: string, table: string, last: string)
    requires ' ' !in name && ' ' !in table && ' ' !in last
    ensures Split("create" + " " + ((if unique then "unique " else "")
        + ("index" + " " + (name + " " + ("on" + " " + (table + " " + last))))), ' ')
      == ["create"] + (if unique then ["unique"] else []) + ["index", name, "on", table, last]
  {
    var rest := "index" + " " + (name + " " + ("on" + " " + (table + " " + last)));
    SplitNoSeparator(last, ' ');
    if unique {
      assert "unique " + rest == "unique" + " " + rest;
      SplitWord("create", "unique" + " " + rest);
      SplitFiveWords("unique", "index", name, "on", table, last);
    } else {
      assert "" + rest == rest;
      SplitFiveWords("create", "index", name, "on", table, last);
    }
  }

  /** Read back at blanks, the wrapped CREATE INDEX statement says `unique` exactly
      for unique indexes, then names the index, the model's table and the column. */
  lemma CreateIndexSQLReadsBack(table: string, idx: Index)
    requires ' ' !in table && ' ' !in idx.columnName
    ensures Split(Transacted(CreateIndexSQL(table, idx)), ' ')
      == ["create"] + (if idx.isUnique then ["unique"] else [])
         + ["index", ToIndexName(idx.(tableName := table)), "on", table, "(" + idx.columnName + ")"]
  {
    var name := ToIndexName(idx.(tableName := table));
    var last := "(" + idx.columnName + ")";
    assert ' ' !in name && ' ' !in last;
    CreateIndexFrame(table, idx);
    IndexBodyWords(name, table, idx.columnName);
    TransactedBody("create" + " " + ((if idx.isUnique then "unique " else "")
      + ("index" + " " + (name + " " + ("on" + " " + (table + " " + last))))));
    CreateIndexSplit(idx.isUnique, name, table, last);
  }

  /** Read back at blanks, the wrapped DROP INDEX statement names the index. */
  lemma DropIndexSQLReadsBack(name: string)
    ensures Split(Transacted(DropIndexSQL(name)), ' ') == ["drop", "index"] + Split(name, ' ')
  {
    assert "BEGIN TRANSACTION;drop index " == "BEGIN TRANSACTION;" + ("drop" + " " + ("index" + " "));
    assert DropIndexSQL(name) == "BEGIN TRANSACTION;" + ("drop" + " " + ("index" + " " + name)) + ";COMMIT;";
    TransactedBody("drop" + " " + ("index" + " " + name));
    SplitWord("index", name);
    SplitWord("drop", "index" + " " + name);
  }

  /** `GetIndexes` once the engine has answered: no result set means no index. */
  function GetIndexes(answer: Answer<Index>): (r: Result<seq<Index>, Error>)
    ensures answer.Failed? <==> r.Err?
    ensures answer.Failed? ==> r == Err(Engine(answer.cause))
    ensures answer.Sets? && |answer.sets| == 0 ==> r == Ok([])
    ensures answer.Sets? && |answer.sets| > 0 ==> r == Ok(answer.sets[0])
  {
    match answer
    case Failed(cause) => Err(Engine(cause))
    case Sets(sets) => if |sets| == 0 then Ok([]) else Ok(sets[0])
  }
}
