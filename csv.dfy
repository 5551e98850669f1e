/** The parsing half of the List page's CSV import (`processCSV` in List.jsx): a naive comma
    split with no quoting, the first line naming the columns, one record per following line. */
module Csv {
  import opened Base
  import opened Text
  import opened Records

  /** A parsed CSV file: every header in file order, the header chosen as the email column,
      and one record per data line. */
  datatype Table = Table(headers: seq<string>, emailKey: string, rows: seq<Record>)

  /** `line.split(",").map(c => c.trim())`: the header row is read this way, and every data
      cell is trimmed the same way before it is stored. */
  function TrimmedCells(line: string): (r: seq<string>)
    ensures |r| == |Split(line, ',')|
    ensures forall k :: 0 <= k < |r| ==> IsTrimmed(r[k])
    ensures forall k :: 0 <= k < |r| ==> r[k] == Trim(Split(line, ',')[k])
  {
    var cells := Split(line, ',');
    seq(|cells|, k requires 0 <= k < |cells| => Trim(cells[k]))
  }

  /** The header row of a file. */
  function HeaderRow(text: string): seq<string> {
    TrimmedCells(Lines(text)[0])
  }

  /** A column named "id" in any letter case, ignoring surrounding white space. */
  predicate IsIdColumn(h: string) {
    ToLower(Trim(h)) == "id"
  }

  /** The number of id columns among `hs`, repeats included. */
  function IdCount(hs: seq<string>): (c: nat)
    ensures c <= |hs|
  {
    if hs == [] then 0
    else IdCount(hs[..|hs| - 1]) + (if IsIdColumn(hs[|hs| - 1]) then 1 else 0)
  }

  /** The headers shown to the user: all of them, in order, except the id column(s). A
      repeated header is shown as often as it occurs: only the id columns are dropped. */
  function DisplayHeaders(hs: seq<string>): (r: seq<string>)
    ensures IsSubsequence(r, hs)
    ensures forall h :: h in r <==> h in hs && !IsIdColumn(h)
    ensures |r| + IdCount(hs) == |hs|
  {
    if hs == [] then []
    else
      var init, last := hs[..|hs| - 1], hs[|hs| - 1];
      var r := DisplayHeaders(init);
      assert hs == init + [last];
      if IsIdColumn(last) then
        SubsequenceExtendRight(r, init, last);
        r
      else
        SubsequenceExtendBoth(r, init, last);
        r + [last]
  }

  /** A column named "email" in any letter case. */
  predicate IsEmailColumn(h: string) {
    ToLower(h) == "email"
  }

  /** Some header names the email column. */
  predicate HasEmailColumn(hs: seq<string>) {
    exists k :: 0 <= k < |hs| && IsEmailColumn(hs[k])
  }

  /** `headers.findIndex(h => h.toLowerCase() === 'email')`, from position `from` on. */
  function FindEmailColumn(hs: seq<string>, from: nat := 0): (r: Option<nat>)
    requires from <= |hs|
    ensures r.None? <==> forall k :: from <= k < |hs| ==> !IsEmailColumn(hs[k])
    ensures r.Some? ==> from <= r.value < |hs| && IsEmailColumn(hs[r.value])
    ensures r.Some? ==> forall k :: from <= k < r.value ==> !IsEmailColumn(hs[k])
    decreases |hs| - from
  {
    if from == |hs| then None
    else if IsEmailColumn(hs[from]) then Some(from)
    else FindEmailColumn(hs, from + 1)
  }

  /** `(vals[i] || '').trim()` given the trimmed cells of a line: the cell at position `i`, or
      the empty string past the end of the line. */
  function Cell(cells: seq<string>, i: nat): string {
    if i < |cells| then cells[i] else ""
  }

  /** The record built by the first `n` steps of `headers.reduce(...)`. */
  function RowUpTo(headers: seq<string>, cells: seq<string>, n: nat): Record
    requires n <= |headers|
  {
    if n == 0 then [] else Set(RowUpTo(headers, cells, n - 1), headers[n - 1], Cell(cells, n - 1))
  }

  /** One data line zipped against the headers. */
  function ParseRow(headers: seq<string>, line: string): Record {
    RowUpTo(headers, TrimmedCells(line), |headers|)
  }

  /** The last of several equal headers. */
  predicate LastOccurrence(hs: seq<string>, i: nat)
    requires i < |hs|
  {
    forall j :: i < j < |hs| ==> hs[j] != hs[i]
  }

  /** A row's keys are exactly the header names, each written once. */
  lemma {:induction false} RowKeys(headers: seq<string>, cells: seq<string>, n: nat)
    requires n <= |headers|
    ensures WellFormed(RowUpTo(headers, cells, n))
    ensures forall key :: HasKey(RowUpTo(headers, cells, n), key) <==> key in headers[..n]
  {
    if n > 0 {
      var prev := RowUpTo(headers, cells, n - 1);
      RowKeys(headers, cells, n - 1);
      SetWellFormed(prev, headers[n - 1], Cell(cells, n - 1));
      assert headers[..n] == headers[..n - 1] + [headers[n - 1]];
      forall key ensures HasKey(RowUpTo(headers, cells, n), key) <==> key in headers[..n] {
        SetHasKey(prev, headers[n - 1], Cell(cells, n - 1), key);
      }
    }
  }

  /** With distinct headers, the keys come in header order. */
  lemma {:induction false} RowKeysInOrder(headers: seq<string>, cells: seq<string>, n: nat)
    requires n <= |headers|
    requires forall i, j :: 0 <= i < j < |headers| ==> headers[i] != headers[j]
    ensures Keys(RowUpTo(headers, cells, n)) == headers[..n]
  {
    if n > 0 {
      RowKeysInOrder(headers, cells, n - 1);
      var prev, h := RowUpTo(headers, cells, n - 1), headers[n - 1];
      forall k | 0 <= k < |prev| ensures prev[k].key != h {
        assert prev[k].key == Keys(prev)[k] == headers[k];
      }
      SetKeys(prev, h, Cell(cells, n - 1));
      assert headers[..n] == headers[..n - 1] + [h];
    }
  }

  /** Under every header a row holds the trimmed cell at that header's position; under a repeated
      header, the cell of its last occurrence. */
  lemma {:induction false} RowValues(headers: seq<string>, cells: seq<string>, n: nat, i: nat)
    requires i < n <= |headers|
    requires forall j :: i < j < n ==> headers[j] != headers[i]
    ensures Get(RowUpTo(headers, cells, n), headers[i]) == Some(Cell(cells, i))
  {
    var prev := RowUpTo(headers, cells, n - 1);
    if i == n - 1 {
      GetSetSame(prev, headers[i], Cell(cells, i));
    } else {
      GetSetOther(prev, headers[n - 1], headers[i], Cell(cells, n - 1));
      RowValues(headers, cells, n - 1, i);
    }
  }

  /** `processCSV`'s parse: trim the text, cut it into lines, read the header row, fail when no
      header is "email" in any letter case, and otherwise turn every later line into a record. */
  function ParseCsv(text: string): (r: Result<Table, string>)
    ensures r.Err? <==> !HasEmailColumn(HeaderRow(text))
    ensures r.Ok? ==> r.value.headers == HeaderRow(text) && r.value.emailKey in r.value.headers
    ensures r.Ok? ==> IsEmailColumn(r.value.emailKey)
    ensures r.Ok? ==> var i := FindEmailColumn(r.value.headers);
      i.Some? && r.value.emailKey == r.value.headers[i.value]
    ensures r.Ok? ==> |r.value.rows| == |Lines(text)| - 1
    ensures r.Ok? ==> forall k :: 0 <= k < |r.value.rows| ==>
      r.value.rows[k] == ParseRow(r.value.headers, Lines(text)[k + 1])
  {
    var lines := Lines(text);
    var headers := TrimmedCells(lines[0]);
    match FindEmailColumn(headers)
    case None => Err("No 'Email' column found")
    case Some(i) =>
      Ok(Table(headers, headers[i],
        seq(|lines| - 1, k requires 0 <= k < |lines| - 1 => ParseRow(headers, lines[k + 1]))))
  }

  /** Every parsed record has the email column among its keys, so reading the email of a parsed
      row never meets `undefined`, and the record under each header holds the trimmed cell of
      that line. */
  lemma ParsedRows(text: string, k: nat)
    requires ParseCsv(text).Ok? && k < |ParseCsv(text).value.rows|
    ensures var t := ParseCsv(text).value;
      && WellFormed(t.rows[k])
      && Get(t.rows[k], t.emailKey).Some?
      && forall i :: 0 <= i < |t.headers| && LastOccurrence(t.headers, i) ==>
           Get(t.rows[k], t.headers[i]) == Some(Cell(TrimmedCells(Lines(text)[k + 1]), i))
  {
    var t := ParseCsv(text).value;
    var cells := TrimmedCells(Lines(text)[k + 1]);
    assert t.rows[k] == RowUpTo(t.headers, cells, |t.headers|);
    RowKeys(t.headers, cells, |t.headers|);
    assert t.headers[..|t.headers|] == t.headers;
    forall i | 0 <= i < |t.headers| && LastOccurrence(t.headers, i)
      ensures Get(t.rows[k], t.headers[i]) == Some(Cell(cells, i))
    {
      RowValues(t.headers, cells, |t.headers|, i);
    }
  }

  /** With distinct headers, every parsed record has exactly the headers as its keys, in order. */
  lemma ParsedRowKeys(text: string, k: nat)
    requires ParseCsv(text).Ok? && k < |ParseCsv(text).value.rows|
    requires var hs := ParseCsv(text).value.headers;
      forall i, j :: 0 <= i < j < |hs| ==> hs[i] != hs[j]
    ensures Keys(ParseCsv(text).value.rows[k]) == ParseCsv(text).value.headers
  {
    var t := ParseCsv(text).value;
    var cells := TrimmedCells(Lines(text)[k + 1]);
    assert t.rows[k] == RowUpTo(t.headers, cells, |t.headers|);
    RowKeysInOrder(t.headers, cells, |t.headers|);
    assert t.headers[..|t.headers|] == t.headers;
  }
}
