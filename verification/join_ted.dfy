/**
 * join-ted.py: cross-references the TED talk list with the YouTube list by a
 * normalised title key and writes one merged row per key of the union, in
 * ascending key order.  CSV reading and writing are not modelled: a record is
 * the map `csv.DictReader` yields and an output line is the list of values
 * handed to `csv.writer.writerow`.
 */
module JoinTed {
  import opened Wrappers
  import opened Text
  import opened Ordering

  /** One input row: column name to text. */
  type Record = map<string, string>

  /** The `KeyError` raised while building a cross-reference dict: the
      record at `index` has no column `field`. */
  datatype JoinError = MissingKeyField(field: string, index: nat)

  /** Sizes logged to stderr: keys in both files, TED-only and YouTube-only. */
  datatype KeyStats = KeyStats(matched: nat, tedOnly: nat, ytOnly: nat)

  /** One data row, in the column order of the header. */
  datatype Row = Row(
    id: string, speaker: string, headline: string, tedUrl: string,
    transcriptUrl: string, youtubeUrl: string, monthFilmed: string,
    yearFilmed: string, event: string, timeStr: string, duration: string,
    datePublished: string, youtubeTitle: string, viewsText: string,
    tags: string, description: string)

  /** What the script produces: the logged statistics, the header line and
      then the data rows, in the order they are written to stdout. */
  datatype Joined = Joined(stats: KeyStats, header: seq<string>, rows: seq<Row>)

  const TedKeyField: string := "headline"
  const YtKeyField: string := "Descrip"

  /** The header as written.  A comma is missing after "time_str", so Python
      joins it with "duration" and the header has 15 names. */
  const OutputCols: seq<string> := [
    "ted_id",
    "speaker",
    "headline",
    "TED_URL",
    "transcript_URL",
    "youtube_url",
    "month_filmed",
    "year_filmed",
    "event",
    "time_str" + "duration",
    "date_published",
    "youtube_title",
    "views_text",
    "tags",
    "description"
  ]

  predicate HasField(records: seq<Record>, field: string) {
    forall i :: 0 <= i < |records| ==> field in records[i]
  }

  /** The join key of a record: its designated field, stripped and lower-cased. */
  function Key(r: Record, field: string): string
    requires field in r
  {
    Normalize(r[field])
  }

  /** Where the comprehension raises `KeyError`: the first record without
      `field`, or |records| when every record has it. */
  function FirstMissing(records: seq<Record>, field: string): (i: nat)
    ensures i <= |records|
    ensures i < |records| ==> field !in records[i]
    ensures forall j :: 0 <= j < i ==> field in records[j]
  {
    if records == [] then 0
    else if field !in records[0] then 0
    else 1 + FirstMissing(records[1..], field)
  }

  /** `dict(pairs)`: a later pair overwrites an earlier one with the same key. */
  function DictOf<K(==), V>(pairs: seq<(K, V)>): map<K, V> {
    if pairs == [] then map[]
    else
      var n := |pairs| - 1;
      DictOf(pairs[..n])[pairs[n].0 := pairs[n].1]
  }

  /** Pair `i` is the last pair whose key is `k`. */
  predicate IsLast<K(==), V>(pairs: seq<(K, V)>, k: K, i: int) {
    0 <= i < |pairs| && pairs[i].0 == k
    && forall j :: i < j < |pairs| ==> pairs[j].0 != k
  }

  /** The keys of `dict(pairs)` are the pairs' keys, and each maps to the
      value of the last pair with that key. */
  lemma {:induction false} DictOfLastWins<K, V>(pairs: seq<(K, V)>, k: K)
    ensures k in DictOf(pairs) <==> exists i :: 0 <= i < |pairs| && pairs[i].0 == k
    ensures k in DictOf(pairs) ==> exists i :: IsLast(pairs, k, i) && DictOf(pairs)[k] == pairs[i].1
  {
    if pairs != [] {
      var n := |pairs| - 1;
      var init := pairs[..n];
      DictOfLastWins(init, k);
      if pairs[n].0 == k {
        assert IsLast(pairs, k, n);
      } else {
        if exists i :: 0 <= i < |pairs| && pairs[i].0 == k {
          var i :| 0 <= i < |pairs| && pairs[i].0 == k;
          assert init[i].0 == k;
        }
        if k in DictOf(init) {
          var i :| IsLast(init, k, i) && DictOf(init)[k] == init[i].1;
          assert IsLast(pairs, k, i);
        }
      }
    }
  }

  /** The keys of the pairs, in order. */
  function Firsts<K, V>(pairs: seq<(K, V)>): (ks: seq<K>)
    ensures |ks| == |pairs|
    ensures forall i :: 0 <= i < |pairs| ==> ks[i] == pairs[i].0
  {
    seq(|pairs|, i requires 0 <= i < |pairs| => pairs[i].0)
  }

  /** `dict(pairs).keys()` is the set of the pairs' keys. */
  lemma DictKeys<K, V>(pairs: seq<(K, V)>)
    ensures DictOf(pairs).Keys == Elems(Firsts(pairs))
  {
    forall k ensures k in DictOf(pairs) <==> k in Elems(Firsts(pairs)) {
      DictOfLastWins(pairs, k);
      if k in Elems(Firsts(pairs)) {
        var i :| 0 <= i < |pairs| && Firsts(pairs)[i] == k;
      }
      if k in DictOf(pairs) {
        var i :| 0 <= i < |pairs| && pairs[i].0 == k;
        assert Firsts(pairs)[i] == k;
      }
    }
  }

  /** Every entry of `dict(pairs)` is one of the pairs. */
  lemma DictEntry<K, V>(pairs: seq<(K, V)>, k: K)
    requires k in DictOf(pairs)
    ensures exists i :: 0 <= i < |pairs| && pairs[i] == (k, DictOf(pairs)[k])
  {
    DictOfLastWins(pairs, k);
    var i :| IsLast(pairs, k, i) && DictOf(pairs)[k] == pairs[i].1;
    assert pairs[i] == (k, DictOf(pairs)[k]);
  }

  /** The (key, record) pairs of the comprehension. */
  function XrefPairs(records: seq<Record>, field: string): (pairs: seq<(string, Record)>)
    requires HasField(records, field)
    ensures |pairs| == |records|
    ensures forall i :: 0 <= i < |records| ==> pairs[i] == (Key(records[i], field), records[i])
  {
    seq(|records|, i requires 0 <= i < |records| => (Key(records[i], field), records[i]))
  }

  /** `dict([(r[field].strip().lower(), r) for r in records])`. */
  function XrefMap(records: seq<Record>, field: string): map<string, Record>
    requires HasField(records, field)
  {
    DictOf(XrefPairs(records, field))
  }

  /** Record `i` is the last one, in input order, whose key is `k`. */
  predicate LastWithKey(records: seq<Record>, field: string, k: string, i: int)
    requires HasField(records, field)
  {
    0 <= i < |records| && Key(records[i], field) == k
    && forall j :: i < j < |records| ==> Key(records[j], field) != k
  }

  /** A key is in the cross-reference exactly when some record has it, and it
      maps to the last record in input order that has it. */
  lemma XrefLastWins(records: seq<Record>, field: string, k: string)
    requires HasField(records, field)
    ensures k in XrefMap(records, field) <==> exists i :: 0 <= i < |records| && Key(records[i], field) == k
    ensures k in XrefMap(records, field) ==>
              exists i :: LastWithKey(records, field, k, i) && XrefMap(records, field)[k] == records[i]
  {
    var pairs := XrefPairs(records, field);
    DictOfLastWins(pairs, k);
    if exists i :: 0 <= i < |records| && Key(records[i], field) == k {
      var i :| 0 <= i < |records| && Key(records[i], field) == k;
      assert pairs[i].0 == k;
    }
    if k in XrefMap(records, field) {
      var i :| IsLast(pairs, k, i) && DictOf(pairs)[k] == pairs[i].1;
      assert LastWithKey(records, field, k, i);
    }
  }

  /** Building one cross-reference dict: `KeyError` at the first record
      without the designated field, otherwise the last-wins map. */
  function BuildXref(records: seq<Record>, field: string): (r: Result<map<string, Record>, JoinError>)
    ensures r.Failure? <==> !HasField(records, field)
    ensures r.Failure? ==> r.error.field == field && r.error.index < |records|
                           && field !in records[r.error.index]
                           && HasField(records[..r.error.index], field)
    ensures r.Success? ==> HasField(records, field) && r.value == XrefMap(records, field)
  {
    var i := FirstMissing(records, field);
    if i < |records| then Failure(MissingKeyField(field, i)) else Success(XrefMap(records, field))
  }

  /** The logged key-set statistics; the three counts partition the union. */
  function Stats(tedKeys: set<string>, ytKeys: set<string>): (st: KeyStats)
    ensures st.matched + st.tedOnly + st.ytOnly == |tedKeys + ytKeys|
    ensures st.matched + st.tedOnly == |tedKeys|
    ensures st.matched + st.ytOnly == |ytKeys|
  {
    KeyStats(|tedKeys * ytKeys|, |tedKeys - ytKeys|, |ytKeys - tedKeys|)
  }

  /** `m.get(k, default)`. */
  function Get(m: Record, k: string, default: string): string {
    if k in m then m[k] else default
  }

  /** The list of values handed to `writerow` for a row: 16 of them, one
      more than the header has names. */
  function Values(row: Row): (v: seq<string>)
    ensures |v| == 16 == |OutputCols| + 1
  {
    [row.id, row.speaker, row.headline, row.tedUrl, row.transcriptUrl,
     row.youtubeUrl, row.monthFilmed, row.yearFilmed, row.event, row.timeStr,
     row.duration, row.datePublished, row.youtubeTitle, row.viewsText,
     row.tags, row.description]
  }

  /** The row written for one key.  `ted.get("speaker", yt.get("Speaker"))`
      falls back to None when both lack the column, which the CSV writer writes
      as an empty field: that is the "" default here. */
  function MergedRow(ted: Record, yt: Record): Row {
    Row(
      Get(ted, "id", ""),
      Get(ted, "speaker", Get(yt, "Speaker", "")),
      Get(ted, "headline", Get(yt, "Descrip", "")),
      Get(ted, "URL", ""),
      Get(ted, "transcript_URL", ""),
      Get(yt, "YTLink", ""),
      Get(ted, "month_filmed", ""),
      Get(ted, "year_filmed", ""),
      Get(ted, "event", ""),
      Get(yt, "TimeStr", ""),
      Get(ted, "duration", ""),
      Get(ted, "date_published", ""),
      Get(yt, "Descrip|Speaker", ""),
      Get(yt, "ViewStr", ""),
      Get(ted, "tags", ""),
      Get(ted, "description", ""))
  }

  /** `ted_xref.get(k, {})` and `yt_xref.get(k, {})` merged into one row. */
  function RowFor(tedX: map<string, Record>, ytX: map<string, Record>, k: string): Row {
    MergedRow(if k in tedX then tedX[k] else map[], if k in ytX then ytX[k] else map[])
  }

  /** `sorted(ted_keys | yt_keys)`, listed from the pairs of both
      comprehensions. */
  function UnionKeys(ted: seq<Record>, yt: seq<Record>): seq<string>
    requires HasField(ted, TedKeyField) && HasField(yt, YtKeyField)
  {
    SortedSet(Firsts(XrefPairs(ted, TedKeyField)) + Firsts(XrefPairs(yt, YtKeyField)))
  }

  /** The data rows for `keys`, in order. */
  function Rows(tedX: map<string, Record>, ytX: map<string, Record>, keys: seq<string>): (rows: seq<Row>)
    ensures |rows| == |keys|
  {
    if keys == [] then []
    else
      var n := |keys| - 1;
      Rows(tedX, ytX, keys[..n]) + [RowFor(tedX, ytX, keys[n])]
  }

  /** Row `i` is the merged row of key `i`. */
  lemma {:induction false} RowsAt(tedX: map<string, Record>, ytX: map<string, Record>, keys: seq<string>, i: nat)
    requires i < |keys|
    ensures Rows(tedX, ytX, keys)[i] == RowFor(tedX, ytX, keys[i])
  {
    var n := |keys| - 1;
    if i < n {
      RowsAt(tedX, ytX, keys[..n], i);
    }
  }

  /** The whole script on its two inputs. */
  function Merge(ted: seq<Record>, yt: seq<Record>): (r: Result<Joined, JoinError>)
    ensures r.Success? <==> HasField(ted, TedKeyField) && HasField(yt, YtKeyField)
    ensures r.Failure? ==> r.error.field == (if HasField(ted, TedKeyField) then YtKeyField else TedKeyField)
  {
    var tedX :- BuildXref(ted, TedKeyField);
    var ytX :- BuildXref(yt, YtKeyField);
    var keys := UnionKeys(ted, yt);
    Success(Joined(Stats(tedX.Keys, ytX.Keys), OutputCols, Rows(tedX, ytX, keys)))
  }

  /** The writing loop of `main`: one row per key, in order. */
  method WriteRows(tedX: map<string, Record>, ytX: map<string, Record>, keys: seq<string>) returns (rows: seq<Row>)
    ensures rows == Rows(tedX, ytX, keys)
  {
    rows := [];
    for i := 0 to |keys|
      invariant rows == Rows(tedX, ytX, keys[..i])
    {
      RowsSnoc(tedX, ytX, keys, i);
      rows := rows + [RowFor(tedX, ytX, keys[i])];
    }
    assert keys[..|keys|] == keys;
  }

  lemma RowsSnoc(tedX: map<string, Record>, ytX: map<string, Record>, keys: seq<string>, i: nat)
    requires i < |keys|
    ensures Rows(tedX, ytX, keys[..i + 1]) == Rows(tedX, ytX, keys[..i]) + [RowFor(tedX, ytX, keys[i])]
  {
    assert keys[..i + 1][..i] == keys[..i];
  }

  /** `main` without the file handling: builds both dicts, computes the
      statistics, writes the header and then one row per sorted key. */
  method Join(ted: seq<Record>, yt: seq<Record>) returns (r: Result<Joined, JoinError>)
    ensures r == Merge(ted, yt)
  {
    var tedX :- BuildXref(ted, TedKeyField);
    var ytX :- BuildXref(yt, YtKeyField);
    var stats := Stats(tedX.Keys, ytX.Keys);
    var keys := UnionKeys(ted, yt);
    var rows := WriteRows(tedX, ytX, keys);
    r := Success(Joined(stats, OutputCols, rows));
  }

  // ---------------------------------------------------------------------
  // Properties of the merge

  /** The listed keys ascend strictly and are exactly the union of the two
      dicts' key sets. */
  lemma UnionKeysAre(ted: seq<Record>, yt: seq<Record>)
    requires HasField(ted, TedKeyField) && HasField(yt, YtKeyField)
    ensures StrictlySorted(UnionKeys(ted, yt))
    ensures Elems(UnionKeys(ted, yt)) == XrefMap(ted, TedKeyField).Keys + XrefMap(yt, YtKeyField).Keys
    ensures |UnionKeys(ted, yt)| == |XrefMap(ted, TedKeyField).Keys + XrefMap(yt, YtKeyField).Keys|
  {
    var tp, yp := XrefPairs(ted, TedKeyField), XrefPairs(yt, YtKeyField);
    DictKeys(tp);
    DictKeys(yp);
    ElemsConcat(Firsts(tp), Firsts(yp));
    DistinctCount(UnionKeys(ted, yt));
  }

  /** A strictly ascending list has as many entries as distinct elements. */
  lemma {:induction false} DistinctCount(s: seq<string>)
    requires StrictlySorted(s)
    ensures |Elems(s)| == |s|
  {
    if s != [] {
      ElemsTail(s);
      DistinctCount(s[1..]);
    }
  }

  /** Every cross-reference value has the designated field, and that field
      normalises back to the key it is filed under. */
  lemma XrefKeyField(records: seq<Record>, field: string, k: string)
    requires HasField(records, field)
    requires k in XrefMap(records, field)
    ensures field in XrefMap(records, field)[k]
    ensures Key(XrefMap(records, field)[k], field) == k
  {
    var pairs := XrefPairs(records, field);
    DictEntry(pairs, k);
    var i :| 0 <= i < |pairs| && pairs[i] == (k, DictOf(pairs)[k]);
    assert records[i] == XrefMap(records, field)[k];
  }

  /** A record lacking `headline` (TED) or `Descrip` (YouTube) is an error,
      not a skipped row; the TED file is checked first. */
  lemma MergeFailsOnMissingField(ted: seq<Record>, yt: seq<Record>)
    ensures Merge(ted, yt).Failure? <==> !HasField(ted, TedKeyField) || !HasField(yt, YtKeyField)
    ensures !HasField(ted, TedKeyField) ==>
              Merge(ted, yt) == Failure(MissingKeyField(TedKeyField, FirstMissing(ted, TedKeyField)))
    ensures HasField(ted, TedKeyField) && !HasField(yt, YtKeyField) ==>
              Merge(ted, yt) == Failure(MissingKeyField(YtKeyField, FirstMissing(yt, YtKeyField)))
  {
  }

  /** A successful merge, spelled out on the two cross-reference dicts. */
  lemma MergeValue(ted: seq<Record>, yt: seq<Record>)
    requires Merge(ted, yt).Success?
    ensures HasField(ted, TedKeyField) && HasField(yt, YtKeyField)
    ensures Merge(ted, yt).value
            == Joined(Stats(XrefMap(ted, TedKeyField).Keys, XrefMap(yt, YtKeyField).Keys), OutputCols,
                      Rows(XrefMap(ted, TedKeyField), XrefMap(yt, YtKeyField), UnionKeys(ted, yt)))
  {
  }

  /** The header is written once, first, with 15 names (the missing comma
      fuses two of them); then one row of 16 values for every key of the
      union; the statistics partition the union. */
  lemma MergeShape(ted: seq<Record>, yt: seq<Record>)
    requires Merge(ted, yt).Success?
    ensures var j := Merge(ted, yt).value;
            var keys := XrefMap(ted, TedKeyField).Keys + XrefMap(yt, YtKeyField).Keys;
            && j.header == OutputCols && |OutputCols| == 15
            && OutputCols[9] == "time_strduration"
            && |j.rows| == |keys|
            && j.stats.matched + j.stats.tedOnly + j.stats.ytOnly == |keys|
  {
    MergeValue(ted, yt);
    UnionKeysAre(ted, yt);
  }

  /** Every value of both dicts is filed under its normalised key field. */
  predicate KeyedBy(tedX: map<string, Record>, ytX: map<string, Record>) {
    && (forall k :: k in tedX ==> TedKeyField in tedX[k] && Key(tedX[k], TedKeyField) == k)
    && (forall k :: k in ytX ==> YtKeyField in ytX[k] && Key(ytX[k], YtKeyField) == k)
  }

  lemma XrefKeyed(ted: seq<Record>, yt: seq<Record>)
    requires HasField(ted, TedKeyField) && HasField(yt, YtKeyField)
    ensures KeyedBy(XrefMap(ted, TedKeyField), XrefMap(yt, YtKeyField))
  {
    forall k | k in XrefMap(ted, TedKeyField)
      ensures TedKeyField in XrefMap(ted, TedKeyField)[k] && Key(XrefMap(ted, TedKeyField)[k], TedKeyField) == k
    {
      XrefKeyField(ted, TedKeyField, k);
    }
    forall k | k in XrefMap(yt, YtKeyField)
      ensures YtKeyField in XrefMap(yt, YtKeyField)[k] && Key(XrefMap(yt, YtKeyField)[k], YtKeyField) == k
    {
      XrefKeyField(yt, YtKeyField, k);
    }
  }

  /** The `headline` column of a merged row normalises back to its key. */
  lemma RowHeadline(tedX: map<string, Record>, ytX: map<string, Record>, k: string)
    requires KeyedBy(tedX, ytX) && (k in tedX || k in ytX)
    ensures Normalize(RowFor(tedX, ytX, k).headline) == k
  {
  }

  /** Row `i` is the merged row of `keys[i]`, where `keys` is the sorted
      union; so row `i` is the row of the key its `headline` normalises to. */
  lemma MergeRowAt(ted: seq<Record>, yt: seq<Record>, i: nat)
    requires Merge(ted, yt).Success?
    requires i < |Merge(ted, yt).value.rows|
    ensures HasField(ted, TedKeyField) && HasField(yt, YtKeyField)
    ensures var row := Merge(ted, yt).value.rows[i];
            var tedX, ytX := XrefMap(ted, TedKeyField), XrefMap(yt, YtKeyField);
            && i < |UnionKeys(ted, yt)|
            && UnionKeys(ted, yt)[i] == Normalize(row.headline)
            && (Normalize(row.headline) in tedX || Normalize(row.headline) in ytX)
            && row == RowFor(tedX, ytX, Normalize(row.headline))
  {
    MergeValue(ted, yt);
    UnionKeysAre(ted, yt);
    XrefKeyed(ted, yt);
    var tedX, ytX := XrefMap(ted, TedKeyField), XrefMap(yt, YtKeyField);
    var keys := UnionKeys(ted, yt);
    assert keys[i] in Elems(keys);
    RowsAt(tedX, ytX, keys, i);
    RowHeadline(tedX, ytX, keys[i]);
  }

  /** The rows' keys strictly ascend: sorted, and no key twice. */
  lemma MergeRowsAscend(ted: seq<Record>, yt: seq<Record>, i: nat, j: nat)
    requires Merge(ted, yt).Success?
    requires i < j < |Merge(ted, yt).value.rows|
    ensures var rows := Merge(ted, yt).value.rows;
            Less(Normalize(rows[i].headline), Normalize(rows[j].headline))
  {
    MergeRowAt(ted, yt, i);
    MergeRowAt(ted, yt, j);
    UnionKeysAre(ted, yt);
  }

  /** Every key of either dict has a row. */
  lemma MergeKeyHasRow(ted: seq<Record>, yt: seq<Record>, k: string)
    requires Merge(ted, yt).Success?
    requires HasField(ted, TedKeyField) && HasField(yt, YtKeyField)
    requires k in XrefMap(ted, TedKeyField) || k in XrefMap(yt, YtKeyField)
    ensures var rows := Merge(ted, yt).value.rows;
            exists i :: 0 <= i < |rows| && Normalize(rows[i].headline) == k
  {
    UnionKeysAre(ted, yt);
    MergeShape(ted, yt);
    var keys := UnionKeys(ted, yt);
    assert k in Elems(keys);
    var i :| 0 <= i < |keys| && keys[i] == k;
    MergeRowAt(ted, yt, i);
  }

  /** For a key in the TED dict, `speaker` and `headline` come from the TED
      record; otherwise from the YouTube record's `Speaker` and `Descrip`. */
  lemma RowPrecedence(tedX: map<string, Record>, ytX: map<string, Record>, k: string)
    ensures var row := RowFor(tedX, ytX, k);
            && (k in tedX && "speaker" in tedX[k] ==> row.speaker == tedX[k]["speaker"])
            && (k in tedX && "headline" in tedX[k] ==> row.headline == tedX[k]["headline"])
            && (k !in tedX && k in ytX ==>
                  row.speaker == Get(ytX[k], "Speaker", "") && row.headline == Get(ytX[k], "Descrip", ""))
  {
  }

  /** A key from one file only leaves the other file's columns empty. */
  lemma RowOneSided(tedX: map<string, Record>, ytX: map<string, Record>, k: string)
    ensures var row := RowFor(tedX, ytX, k);
            && (k !in ytX ==> row.youtubeUrl == row.timeStr == row.youtubeTitle == row.viewsText == "")
            && (k !in tedX ==> row.id == row.tedUrl == row.transcriptUrl == row.monthFilmed
                               == row.yearFilmed == row.event == row.duration
                               == row.datePublished == row.tags == row.description == "")
  {
  }
}
