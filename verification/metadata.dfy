/** The two pieces of bookkeeping around the files: the Transkribus
    document id taken from a file name (`return_transkribus_doc_id`,
    scripts/refine_tei.py:208-210) and the grouping of the metadata dump
    by collection and document (`load_metadata_from_dump`,
    scripts/refine_tei.py:247-254). */
module Metadata {
  import opened Tree

  /** The position of the last `/` in `path`, or -1 when there is none. */
  function LastSlash(path: string): (r: int)
    ensures -1 <= r < |path|
    ensures r >= 0 ==> path[r] == '/'
    ensures forall j :: r < j < |path| ==> path[j] != '/'
    decreases |path|
  {
    if |path| == 0 then -1
    else if path[|path| - 1] == '/' then |path| - 1
    else LastSlash(path[..|path| - 1])
  }

  /** `os.path.split(path)[1]`: what follows the last `/`, or the whole
      path when it has none. */
  function Basename(path: string): (r: string)
    ensures |r| <= |path| && r == path[|path| - |r|..]
    ensures '/' !in r
    ensures |r| < |path| ==> path[|path| - |r| - 1] == '/'
  {
    path[LastSlash(path) + 1..]
  }

  /** The position of the first `_` in `s`, or `|s|` when there is none. */
  function FirstUnderscore(s: string): (r: nat)
    ensures r <= |s|
    ensures r < |s| ==> s[r] == '_'
    ensures forall j :: 0 <= j < r ==> s[j] != '_'
    decreases |s|
  {
    if |s| == 0 || s[0] == '_' then 0
    else 1 + FirstUnderscore(s[1..])
  }

  /** `s.split("_")[0]`: what comes before the first `_`, or all of `s`
      when it has none. */
  function FirstField(s: string): (r: string)
    ensures |r| <= |s| && r == s[..|r|]
    ensures '_' !in r
    ensures |r| < |s| ==> s[|r|] == '_'
  {
    s[..FirstUnderscore(s)]
  }

  /** The document id is the file name up to its first `_`. */
  function TranskribusDocId(path: string): (r: string)
    ensures '/' !in r && '_' !in r
    ensures |r| <= |path|
  {
    FirstField(Basename(path))
  }

  /** Any string with the three properties of `Basename` is the basename. */
  lemma BasenameUnique(path: string, b: string)
    requires |b| <= |path| && b == path[|path| - |b|..] && '/' !in b
    requires |b| < |path| ==> path[|path| - |b| - 1] == '/'
    ensures Basename(path) == b
  {
  }

  /** Any string with the three properties of `FirstField` is the first
      field. */
  lemma FirstFieldUnique(s: string, f: string)
    requires |f| <= |s| && f == s[..|f|] && '_' !in f
    requires |f| < |s| ==> s[|f|] == '_'
    ensures FirstField(s) == f
  {
  }

  /** A file `<dir>/<id>_<rest>` has document id `<id>`, whatever the
      directory, provided the id has no `_` and the rest no `/`. */
  lemma DocIdOfFileName(dir: string, id: string, rest: string)
    requires '_' !in id && '/' !in id && '/' !in rest
    ensures TranskribusDocId(dir + "/" + id + "_" + rest) == id
  {
    var path := dir + "/" + id + "_" + rest;
    var name := id + "_" + rest;
    assert path == (dir + "/") + name;
    assert path[|path| - |name|..] == name;
    assert path[|path| - |name| - 1] == '/';
    BasenameUnique(path, name);
    assert name[..|id|] == id && name[|id|] == '_';
    FirstFieldUnique(name, id);
  }

  /* ---------------- grouping ---------------- */

  /** A row of the dump: a JSON object, with values of type `V`. */
  type Row<V> = map<string, V>

  const ColField := "transkribus_col_id"
  const DocField := "transkribus_doc_id"

  /** Both id fields are present. */
  predicate HasIds<V>(row: Row<V>) {
    ColField in row && DocField in row
  }

  /** The row is filed under collection `c` and document `d`. */
  predicate Filed<V(==)>(row: Row<V>, c: V, d: V) {
    HasIds(row) && row[ColField] == c && row[DocField] == d
  }

  /** One step of the loop: file `row` under its collection and document,
      creating the collection's map when it is new. */
  function File<V(==)>(m: map<V, map<V, Row<V>>>, row: Row<V>): (r: Result<map<V, map<V, Row<V>>>>)
    ensures r.Err? <==> !HasIds(row)
    ensures r.Err? ==> r.error == MissingField
  {
    if !HasIds(row) then Err(MissingField)
    else
      var c := row[ColField];
      var inner := if c in m then m[c] else map[];
      Ok(m[c := inner[row[DocField] := row]])
  }

  /** The loop over the rows, in the dump's order. */
  function Group<V(==)>(rows: seq<Row<V>>): (r: Result<map<V, map<V, Row<V>>>>)
    ensures r.Err? ==> r.error == MissingField
    decreases |rows|
  {
    if |rows| == 0 then Ok(map[])
    else
      match Group(rows[..|rows| - 1])
      case Err(err) => Err(err)
      case Ok(m) => File(m, rows[|rows| - 1])
  }

  /** Grouping fails exactly when some row lacks an id field. */
  lemma {:induction false} GroupFails<V>(rows: seq<Row<V>>)
    ensures Group(rows).Err? <==> exists i :: 0 <= i < |rows| && !HasIds(rows[i])
    decreases |rows|
  {
    if |rows| > 0 {
      var init := rows[..|rows| - 1];
      GroupFails(init);
      assert forall i :: 0 <= i < |init| ==> init[i] == rows[i];
    }
  }

  /** The row `i` is the last one filed under `c` and `d`. */
  predicate LastFiled<V(==)>(rows: seq<Row<V>>, i: int, c: V, d: V) {
    0 <= i < |rows| && Filed(rows[i], c, d)
      && forall j :: i < j < |rows| ==> !Filed(rows[j], c, d)
  }

  /** Filing a row adds its (collection, document) entry, holding the row,
      and keeps every other entry as it was. */
  lemma FileAt<V>(m0: map<V, map<V, Row<V>>>, row: Row<V>, c: V, d: V)
    requires HasIds(row)
    ensures var m := File(m0, row).value;
      && (c in m && d in m[c] <==> (c in m0 && d in m0[c]) || Filed(row, c, d))
      && (Filed(row, c, d) ==> m[c][d] == row)
      && (!Filed(row, c, d) && c in m0 && d in m0[c] ==> m[c][d] == m0[c][d])
      && ((c in m0 ==> |m0[c]| > 0) ==> (c in m ==> |m[c]| > 0))
  {
    var m := File(m0, row).value;
    if c == row[ColField] {
      assert row[DocField] in m[c];
    }
  }

  /** After grouping, collection `c` holds document `d` exactly when some
      row is filed under both, and then it holds the last such row. Every
      collection of the result holds some document. */
  lemma {:induction false} GroupAt<V>(rows: seq<Row<V>>, c: V, d: V)
    requires Group(rows).Ok?
    ensures var m := Group(rows).value;
      && (c in m && d in m[c] <==> exists i :: 0 <= i < |rows| && Filed(rows[i], c, d))
      && (c in m && d in m[c] ==> exists i :: LastFiled(rows, i, c, d) && m[c][d] == rows[i])
      && (c in m ==> |m[c]| > 0)
    decreases |rows|
  {
    if |rows| > 0 {
      var n := |rows| - 1;
      var init := rows[..n];
      var m0 := Group(init).value;
      var m := Group(rows).value;
      assert m == File(m0, rows[n]).value;
      GroupAt(init, c, d);
      FileAt(m0, rows[n], c, d);
      assert forall i :: 0 <= i < n ==> init[i] == rows[i];
      if Filed(rows[n], c, d) {
        assert LastFiled(rows, n, c, d);
      } else if c in m && d in m[c] {
        var i :| LastFiled(init, i, c, d) && m0[c][d] == init[i];
        assert LastFiled(rows, i, c, d);
      }
    }
  }
}
