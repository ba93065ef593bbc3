/**
 * The column logic of the savers (myproject/saver.py): which columns each output has,
 * in which order, under which header, and what each cell holds. Files are not written:
 * each saver yields the table it would write, or None when it returns early on empty data.
 */
module Saver {
  import opened Wrappers
  import opened Dicts
  import Extraction

  /**
   * `FIELDS`, the one field order of every output. It lists the same keys as the record
   * literal of the scraper (`Extraction.RecordKeys`), but the saver declares it on its own.
   */
  const Fields: seq<string> := ["name", "price", "currency", "url", "instock_text"]

  /** The Russian headers of the fields, in field order. */
  const FieldHeaders: seq<string> := ["Название", "Цена", "Валюта", "Ссылка", "Наличие"]

  /** `HEADER_NAMES.get(field, field)`: the Russian header of a field; any other key heads its own column. */
  function HeaderName(field: string): string
  {
    if field == "name" then "Название"
    else if field == "price" then "Цена"
    else if field == "currency" then "Валюта"
    else if field == "url" then "Ссылка"
    else if field == "instock_text" then "Наличие"
    else field
  }

  /** The headers of a list of columns. */
  function Headers(columns: seq<string>): (hs: seq<string>)
    ensures |hs| == |columns| && forall j :: 0 <= j < |columns| ==> hs[j] == HeaderName(columns[j])
  {
    seq(|columns|, j requires 0 <= j < |columns| => HeaderName(columns[j]))
  }

  /** No column or header twice; about plain lists of names, not records. */
  predicate Distinct(xs: seq<string>) {
    forall i, j :: 0 <= i < j < |xs| ==> xs[i] != xs[j]
  }

  /** The header table maps the fields, in order, to five distinct Russian headers, none of them a field. */
  lemma HeaderNameTable()
    ensures Headers(Fields) == FieldHeaders && Distinct(FieldHeaders)
    ensures forall h :: h in FieldHeaders ==> h !in Fields
  {
    var hs := Headers(Fields);
    assert hs[0] == FieldHeaders[0] && hs[1] == FieldHeaders[1] && hs[2] == FieldHeaders[2];
    assert hs[3] == FieldHeaders[3] && hs[4] == FieldHeaders[4];
    forall i, j | 0 <= i < j < |FieldHeaders| ensures FieldHeaders[i] != FieldHeaders[j] {
      assert |FieldHeaders[i]| != |FieldHeaders[j]| || FieldHeaders[i][0] != FieldHeaders[j][0];
    }
    forall h | h in FieldHeaders ensures h !in Fields {
      assert 'А' <= h[0] <= 'Я';
      forall k | 0 <= k < |Fields| ensures Fields[k] != h {
        assert Fields[k][0] < 'А';
      }
    }
  }

  /** No field is listed twice. */
  lemma FieldsDistinct()
    ensures Distinct(Fields)
  {
    forall i, j | 0 <= i < j < |Fields| ensures Fields[i] != Fields[j] {
      assert |Fields[i]| != |Fields[j]|;
    }
  }

  /**
   * A key that is neither a field nor a Russian header keeps its own name, so two such
   * keys, or a field and such a key, never share a header.
   */
  lemma HeaderNameInjective(a: string, b: string)
    requires a !in FieldHeaders && b !in FieldHeaders
    requires HeaderName(a) == HeaderName(b)
    ensures a == b
  {
  }

  /** A sequence with no members is empty. */
  lemma NoMembersEmpty(xs: seq<string>)
    ensures (forall x :: x !in xs) ==> xs == []
  {
    if xs != [] {
      assert xs[0] in xs;
    }
  }

  /** `[f for f in fields if f in d]`. */
  function Present(fields: seq<string>, d: Dict): seq<string>
  {
    if fields == [] then []
    else
      var n := |fields| - 1;
      Present(fields[..n], d) + (if HasKey(d, fields[n]) then [fields[n]] else [])
  }

  /** The keys that are not fields, in key order. */
  function Extra(keys: seq<string>): seq<string>
  {
    if keys == [] then []
    else
      var n := |keys| - 1;
      Extra(keys[..n]) + (if keys[n] !in Fields then [keys[n]] else [])
  }

  lemma PresentSnoc(fields: seq<string>, f: string, d: Dict)
    ensures Present(fields + [f], d) == Present(fields, d) + (if HasKey(d, f) then [f] else [])
  {
    assert (fields + [f])[..|fields|] == fields;
  }

  lemma ExtraSnoc(keys: seq<string>, k: string)
    ensures Extra(keys + [k]) == Extra(keys) + (if k !in Fields then [k] else [])
  {
    assert (keys + [k])[..|keys|] == keys;
  }

  /** The filter keeps exactly the fields the dict has, without repeating any. */
  lemma {:induction false} PresentMembers(fields: seq<string>, d: Dict)
    requires Distinct(fields)
    ensures forall x :: x in Present(fields, d) <==> x in fields && HasKey(d, x)
    ensures Distinct(Present(fields, d))
  {
    if fields != [] {
      var n := |fields| - 1;
      PresentMembers(fields[..n], d);
      assert fields == fields[..n] + [fields[n]];
      assert fields[n] !in fields[..n];
    }
  }

  /** The filter keeps exactly the keys that are not fields, without repeating any. */
  lemma {:induction false} ExtraMembers(keys: seq<string>)
    requires Distinct(keys)
    ensures forall x :: x in Extra(keys) <==> x in keys && x !in Fields
    ensures Distinct(Extra(keys))
  {
    if keys != [] {
      var n := |keys| - 1;
      ExtraMembers(keys[..n]);
      assert keys == keys[..n] + [keys[n]];
      assert keys[n] !in keys[..n];
    }
  }

  lemma KeysDistinct(d: Dict)
    ensures Distinct(Keys(d))
  {
  }

  /** Distinct fields followed by distinct non-fields are distinct, and the fields come first. */
  lemma FieldsThenOthers(present: seq<string>, extra: seq<string>)
    requires Distinct(present) && Distinct(extra)
    requires forall x :: x in present ==> x in Fields
    requires forall x :: x in extra ==> x !in Fields
    ensures Distinct(present + extra)
    ensures forall i, j :: 0 <= i < j < |present + extra| && (present + extra)[j] in Fields ==> (present + extra)[i] in Fields
  {
    var chosen := present + extra;
    assert forall k :: 0 <= k < |present| ==> chosen[k] == present[k] && chosen[k] in Fields;
    assert forall k :: |present| <= k < |chosen| ==> chosen[k] == extra[k - |present|] && chosen[k] !in Fields;
  }

  /** The field filter spelled out field by field. */
  lemma PresentOfFields(d: Dict)
    ensures Present(Fields, d)
      == (if HasKey(d, "name") then ["name"] else []) + (if HasKey(d, "price") then ["price"] else [])
         + (if HasKey(d, "currency") then ["currency"] else []) + (if HasKey(d, "url") then ["url"] else [])
         + (if HasKey(d, "instock_text") then ["instock_text"] else [])
  {
    PresentSnoc([], "name", d);
    assert [] + ["name"] == ["name"];
    PresentSnoc(["name"], "price", d);
    assert ["name"] + ["price"] == ["name", "price"];
    PresentSnoc(["name", "price"], "currency", d);
    assert ["name", "price"] + ["currency"] == ["name", "price", "currency"];
    PresentSnoc(["name", "price", "currency"], "url", d);
    assert ["name", "price", "currency"] + ["url"] == ["name", "price", "currency", "url"];
    PresentSnoc(["name", "price", "currency", "url"], "instock_text", d);
    assert ["name", "price", "currency", "url"] + ["instock_text"] == Fields;
  }

  /** The CSV columns: the fields the first record has, in field order, then its other keys in key order. */
  function CsvColumns(first: Dict): seq<string>
  {
    var chosen := Present(Fields, first) + Extra(Keys(first));
    if chosen == [] then Fields else chosen
  }

  /**
   * The CSV columns are the first record's keys, each once, the fields among them first;
   * a first record without keys gives all fields.
   */
  lemma CsvColumnsChoice(first: Dict)
    ensures var columns := CsvColumns(first);
      Distinct(columns)
      && (first == [] ==> columns == Fields)
      && (first != [] ==> forall c :: c in columns <==> HasKey(first, c))
      && (forall i, j :: 0 <= i < j < |columns| && columns[j] in Fields ==> columns[i] in Fields)
  {
    var present := Present(Fields, first);
    var extra := Extra(Keys(first));
    FieldsDistinct();
    PresentMembers(Fields, first);
    KeysDistinct(first);
    ExtraMembers(Keys(first));
    forall c ensures c in Keys(first) <==> HasKey(first, c) {
      InKeys(first, c);
    }
    var chosen := present + extra;
    FieldsThenOthers(present, extra);
    if first != [] {
      assert HasKey(first, first[0].0);
      assert chosen != [];
    } else {
      NoMembersEmpty(present);
      assert Keys(first) == [];
    }
  }

  /** The row dict of a record: header to value, built in column order, so a later column with the same header wins. */
  function RowDict(item: Dict, columns: seq<string>): Dict
  {
    if columns == [] then []
    else
      var n := |columns| - 1;
      Put(RowDict(item, columns[..n]), HeaderName(columns[n]), Get(item, columns[n], ""))
  }

  /** The CSV row of a record: the row dict read under each header, missing values empty. */
  function CsvRow(item: Dict, columns: seq<string>): (row: seq<string>)
    ensures |row| == |columns|
  {
    var rowDict := RowDict(item, columns);
    seq(|columns|, j requires 0 <= j < |columns| => Get(rowDict, HeaderName(columns[j]), ""))
  }

  /** A header used by one column only holds the record's value for that column. */
  lemma {:induction false} RowDictAt(item: Dict, columns: seq<string>, j: nat)
    requires j < |columns|
    requires forall k :: 0 <= k < |columns| && k != j ==> HeaderName(columns[k]) != HeaderName(columns[j])
    ensures Get(RowDict(item, columns), HeaderName(columns[j]), "") == Get(item, columns[j], "")
  {
    var n := |columns| - 1;
    var prefix := columns[..n];
    GetPut(RowDict(item, prefix), HeaderName(columns[n]), Get(item, columns[n], ""), HeaderName(columns[j]), "");
    if j < n {
      RowDictAt(item, prefix, j);
    }
  }

  /** A cell whose header no other column shares holds `item.get(column, "")`. */
  lemma CsvCellCopiesValue(item: Dict, columns: seq<string>, j: nat)
    requires j < |columns|
    requires forall k :: 0 <= k < |columns| && k != j ==> HeaderName(columns[k]) != HeaderName(columns[j])
    ensures CsvRow(item, columns)[j] == Get(item, columns[j], "")
  {
    RowDictAt(item, columns, j);
  }

  /** The table a saver writes: a header row and one row per record. */
  datatype Table = Table(header: seq<string>, rows: seq<seq<string>>)

  /** `save_csv`'s output: nothing for no records, else the columns chosen from the first record. */
  function CsvTable(data: seq<Dict>): (t: Option<Table>)
    ensures t.None? <==> data == []
  {
    if data == [] then None
    else
      var columns := CsvColumns(data[0]);
      Some(Table(Headers(columns), seq(|data|, i requires 0 <= i < |data| => CsvRow(data[i], columns))))
  }

  /** A key of the record that is not a field is not among the columns chosen before it. */
  lemma KeyNotChosenYet(first: Dict, i: nat)
    requires i < |first|
    ensures var keys := Keys(first);
      keys[i] !in Fields ==> keys[i] !in Present(Fields, first) + Extra(keys[..i])
  {
    var keys := Keys(first);
    var key := keys[i];
    if key !in Fields {
      FieldsDistinct();
      PresentMembers(Fields, first);
      assert key !in Present(Fields, first);
      KeysDistinct(first);
      assert Distinct(keys[..i]) && key !in keys[..i];
      ExtraMembers(keys[..i]);
      assert key !in Extra(keys[..i]);
    }
  }

  /**
   * The column choice of `save_csv`: the fields the first record has, then its keys that
   * are neither fields nor already chosen, or all fields when that leaves nothing.
   */
  method CsvFieldsToUse(first: Dict) returns (fieldsToUse: seq<string>)
    ensures fieldsToUse == CsvColumns(first)
  {
    var availableFields := Present(Fields, first);
    var keys := Keys(first);
    for i := 0 to |keys|
      invariant availableFields == Present(Fields, first) + Extra(keys[..i])
    {
      var key := keys[i];
      assert keys[..i + 1] == keys[..i] + [key];
      ExtraSnoc(keys[..i], key);
      KeyNotChosenYet(first, i);
      if key !in Fields && key !in availableFields {
        availableFields := availableFields + [key];
      }
    }
    assert keys[..|keys|] == keys;
    fieldsToUse := if availableFields != [] then availableFields else Fields;
  }

  /** `save_csv`: the column choice, the header row, and the row loop over the records. */
  method SaveCsv(data: seq<Dict>) returns (written: Option<Table>)
    ensures written == CsvTable(data)
  {
    if data == [] {
      return None;
    }
    var fieldsToUse := CsvFieldsToUse(data[0]);
    var fieldnames := Headers(fieldsToUse);
    var rows: seq<seq<string>> := [];
    for i := 0 to |data|
      invariant rows == seq(i, k requires 0 <= k < i => CsvRow(data[k], fieldsToUse))
    {
      rows := rows + [CsvRow(data[i], fieldsToUse)];
    }
    written := Some(Table(fieldnames, rows));
  }

  /** When no key of the first record is itself a Russian header, no two CSV columns share a header. */
  lemma CsvHeadersDistinct(first: Dict)
    requires forall k :: HasKey(first, k) ==> k !in FieldHeaders
    ensures var columns := CsvColumns(first);
      forall a, b :: 0 <= a < |columns| && 0 <= b < |columns| && a != b ==> HeaderName(columns[a]) != HeaderName(columns[b])
  {
    var columns := CsvColumns(first);
    CsvColumnsChoice(first);
    HeaderNameTable();
    forall c | c in columns ensures c !in FieldHeaders {
      if first == [] {
        assert c in Fields;
      }
    }
    forall a, b | 0 <= a < |columns| && 0 <= b < |columns| && a != b
      ensures HeaderName(columns[a]) != HeaderName(columns[b])
    {
      assert columns[a] in columns && columns[b] in columns;
      if HeaderName(columns[a]) == HeaderName(columns[b]) {
        HeaderNameInjective(columns[a], columns[b]);
      }
    }
  }

  /**
   * When no key of the first record is itself a Russian header, the headers are distinct
   * and every cell holds the record's value for its column, or "" when it lacks it; keys
   * that only later records have are dropped.
   */
  lemma CsvCellsAreValues(data: seq<Dict>, i: nat, j: nat)
    requires data != [] && forall k :: HasKey(data[0], k) ==> k !in FieldHeaders
    requires i < |data| && j < |CsvColumns(data[0])|
    ensures var t := CsvTable(data).value;
      Distinct(t.header) && |t.rows[i]| == |t.header|
      && t.rows[i][j] == Get(data[i], CsvColumns(data[0])[j], "")
  {
    var columns := CsvColumns(data[0]);
    CsvHeadersDistinct(data[0]);
    CsvCellCopiesValue(data[i], columns, j);
  }

  lemma RowDictSnoc(item: Dict, columns: seq<string>, c: string)
    ensures RowDict(item, columns + [c]) == Put(RowDict(item, columns), HeaderName(c), Get(item, c, ""))
  {
    assert (columns + [c])[..|columns|] == columns;
  }

  /** The CSV table of a single record. */
  lemma CsvTableOfOne(item: Dict)
    ensures CsvTable([item]) == Some(Table(Headers(CsvColumns(item)), [CsvRow(item, CsvColumns(item))]))
  {
    var data := [item];
    assert data[0] == item && data != [];
    var t := CsvTable(data).value;
    assert t.header == Headers(CsvColumns(item));
    assert |t.rows| == 1;
    assert t.rows[0] == CsvRow(item, CsvColumns(item));
    assert t.rows == [CsvRow(item, CsvColumns(item))];
  }

  /** The row dict of two columns: the second column's header holds its value, over the first's. */
  lemma RowDictOfTwo(item: Dict, c1: string, c2: string, h: string)
    ensures Get(RowDict(item, [c1, c2]), h, "")
      == if h == HeaderName(c2) then Get(item, c2, "") else if h == HeaderName(c1) then Get(item, c1, "") else ""
  {
    RowDictSnoc(item, [], c1);
    RowDictSnoc(item, [c1], c2);
    assert [] + [c1] == [c1] && [c1] + [c2] == [c1, c2];
    GetPut([], HeaderName(c1), Get(item, c1, ""), h, "");
    GetPut(RowDict(item, [c1]), HeaderName(c2), Get(item, c2, ""), h, "");
  }

  lemma CsvColumnsOfNameAndOther(item: Dict, k: string)
    requires |item| == 2 && item[0].0 == "name" && item[1].0 == k && k !in Fields
    ensures CsvColumns(item) == ["name", k]
  {
    PresentOfFields(item);
    HasKeyOfTwo(item, "name");
    HasKeyOfTwo(item, "price");
    HasKeyOfTwo(item, "currency");
    HasKeyOfTwo(item, "url");
    HasKeyOfTwo(item, "instock_text");
    assert Present(Fields, item) == ["name"];
    assert Keys(item) == [] + ["name"] + [k];
    ExtraSnoc([], "name");
    ExtraSnoc(["name"], k);
    assert Extra(Keys(item)) == [k];
  }

  /**
   * The CSV table of one record with two columns: the header row, and the record's two
   * values, the second column's value shown in both cells when the headers coincide.
   */
  lemma CsvTableOfTwoColumns(item: Dict, c1: string, c2: string)
    requires CsvColumns(item) == [c1, c2]
    ensures CsvTable([item]) == Some(Table([HeaderName(c1), HeaderName(c2)],
      [[if HeaderName(c1) == HeaderName(c2) then Get(item, c2, "") else Get(item, c1, ""), Get(item, c2, "")]]))
  {
    var columns := [c1, c2];
    CsvTableOfOne(item);
    RowDictOfTwo(item, c1, c2, HeaderName(c1));
    RowDictOfTwo(item, c1, c2, HeaderName(c2));
    var row := CsvRow(item, columns);
    assert row == [row[0], row[1]];
    assert Headers(columns) == [HeaderName(c1), HeaderName(c2)];
  }

  /**
   * A first record with an extra key spelled like a Russian header gives two columns with
   * one header, and both cells show the extra key's value.
   */
  lemma CsvHeaderCollision()
    ensures CsvTable([[("name", "A"), ("Название", "B")]])
      == Some(Table(["Название", "Название"], [["B", "B"]]))
  {
    var item: Dict := [("name", "A"), ("Название", "B")];
    CsvColumnsOfNameAndOther(item, "Название");
    CsvTableOfTwoColumns(item, "name", "Название");
    assert HeaderName("name") == "Название" == HeaderName("Название");
    assert Get(item, "Название", "") == "B";
  }

  lemma CsvColumnsOfNameAndUrl(item: Dict)
    requires |item| == 2 && item[0].0 == "name" && item[1].0 == "url"
    ensures CsvColumns(item) == ["name", "url"]
  {
    PresentOfFields(item);
    HasKeyOfTwo(item, "name");
    HasKeyOfTwo(item, "price");
    HasKeyOfTwo(item, "currency");
    HasKeyOfTwo(item, "url");
    HasKeyOfTwo(item, "instock_text");
    assert Present(Fields, item) == ["name"] + ["url"];
    assert Keys(item) == [] + ["name"] + ["url"];
    ExtraSnoc([], "name");
    ExtraSnoc(["name"], "url");
    assert Extra(Keys(item)) == [];
  }

  /** The single-record example of the CSV tests: Russian headers over the record's own values. */
  lemma CsvExample()
    ensures CsvTable([[("name", "Пример"), ("url", "https://example.com")]])
      == Some(Table(["Название", "Ссылка"], [["Пример", "https://example.com"]]))
  {
    var item: Dict := [("name", "Пример"), ("url", "https://example.com")];
    CsvColumnsOfNameAndUrl(item);
    CsvTableOfTwoColumns(item, "name", "url");
    assert HeaderName("name") == "Название" && HeaderName("url") == "Ссылка";
    assert Get(item, "name", "") == "Пример" && Get(item, "url", "") == "https://example.com";
  }

  /** A scraped record has every field, in field order, so its CSV columns are the fields. */
  lemma ScrapedRecordColumns(p: Extraction.Product)
    ensures CsvColumns(Extraction.ToDict(p)) == Fields
  {
    var d := Extraction.ToDict(p);
    assert d[0].0 == "name" && d[1].0 == "price" && d[2].0 == "currency" && d[3].0 == "url" && d[4].0 == "instock_text";
    assert HasKey(d, "name") && HasKey(d, "price") && HasKey(d, "currency") && HasKey(d, "url") && HasKey(d, "instock_text");
    PresentOfFields(d);
    assert Present(Fields, d) == Fields;
    assert Keys(d) == Fields;
    KeysDistinct(d);
    ExtraMembers(Fields);
    NoMembersEmpty(Extra(Fields));
  }

  /** Under the fields as columns, every header is used by one column only. */
  lemma FieldHeadersUnshared(j: nat)
    requires j < |Fields|
    ensures forall k :: 0 <= k < |Fields| && k != j ==> HeaderName(Fields[k]) != HeaderName(Fields[j])
  {
    HeaderNameTable();
    forall k | 0 <= k < |Fields| && k != j ensures HeaderName(Fields[k]) != HeaderName(Fields[j]) {
      assert FieldHeaders[k] != FieldHeaders[j];
    }
  }

  /** A scraped record has every field, in field order, so its CSV row lists them under the five headers. */
  lemma ScrapedRecordCsv(p: Extraction.Product)
    ensures var d := Extraction.ToDict(p);
      CsvColumns(d) == Fields && Headers(Fields) == FieldHeaders
      && CsvRow(d, Fields) == [p.name, p.price, p.currency, p.url, p.instockText]
  {
    var d := Extraction.ToDict(p);
    ScrapedRecordColumns(p);
    HeaderNameTable();
    Extraction.FromDictToDict(p);
    var row := CsvRow(d, Fields);
    forall j | 0 <= j < 5 ensures row[j] == Get(d, Fields[j], "") {
      FieldHeadersUnshared(j);
      CsvCellCopiesValue(d, Fields, j);
    }
    assert row == [p.name, p.price, p.currency, p.url, p.instockText];
  }

  /** A spreadsheet: headers and cells, None for an empty cell (a missing value). */
  datatype Sheet = Sheet(header: seq<string>, rows: seq<seq<Option<string>>>)

  /** Some record has the key: it is a column of the data frame. */
  predicate InSome(data: seq<Dict>, key: string) {
    exists i :: 0 <= i < |data| && HasKey(data[i], key)
  }

  /** `[f for f in fields if f in df.columns]`. */
  function InData(fields: seq<string>, data: seq<Dict>): seq<string>
  {
    if fields == [] then []
    else
      var n := |fields| - 1;
      InData(fields[..n], data) + (if InSome(data, fields[n]) then [fields[n]] else [])
  }

  /** A spreadsheet cell: the record's value, or empty when the record lacks the key. */
  function XlsxCell(item: Dict, key: string): Option<string>
  {
    if HasKey(item, key) then Some(Get(item, key, "")) else None
  }

  /** One spreadsheet row: the record's cell under each column. */
  function XlsxRow(item: Dict, columns: seq<string>): (row: seq<Option<string>>)
    ensures |row| == |columns| && forall j :: 0 <= j < |columns| ==> row[j] == XlsxCell(item, columns[j])
  {
    seq(|columns|, j requires 0 <= j < |columns| => XlsxCell(item, columns[j]))
  }

  /**
   * `save_xlsx`'s output: the fields some record has, in field order, under their Russian
   * headers. Selecting all fields and renaming with the whole table, or selecting the
   * present ones and renaming each, give the same sheet, so both branches are one here.
   */
  function XlsxSheet(data: seq<Dict>): (s: Option<Sheet>)
    ensures s.None? <==> data == []
  {
    if data == [] then None
    else
      var columns := InData(Fields, data);
      Some(Sheet(Headers(columns), seq(|data|, i requires 0 <= i < |data| => XlsxRow(data[i], columns))))
  }

  /** The filter keeps exactly the fields some record has, without repeating any. */
  lemma {:induction false} InDataMembers(fields: seq<string>, data: seq<Dict>)
    requires Distinct(fields)
    ensures forall x :: x in InData(fields, data) <==> x in fields && InSome(data, x)
    ensures Distinct(InData(fields, data))
  {
    if fields != [] {
      var n := |fields| - 1;
      InDataMembers(fields[..n], data);
      assert fields == fields[..n] + [fields[n]];
      assert fields[n] !in fields[..n];
    }
  }

  /**
   * The sheet's columns are the fields some record has, each once under a distinct
   * Russian header; keys outside the fields are dropped; a cell is filled exactly when
   * its record has the column's key.
   */
  lemma XlsxColumnsChoice(data: seq<Dict>)
    requires data != []
    ensures var columns := InData(Fields, data);
      var s := XlsxSheet(data).value;
      (forall c :: c in columns <==> c in Fields && InSome(data, c))
      && Distinct(columns) && Distinct(s.header)
      && (forall h :: h in s.header ==> h in FieldHeaders)
      && forall i, j :: 0 <= i < |data| && 0 <= j < |columns| ==>
           (s.rows[i][j].Some? <==> HasKey(data[i], columns[j]))
  {
    var columns := InData(Fields, data);
    InDataMembers(Fields, data);
    HeaderNameTable();
    var s := XlsxSheet(data).value;
    forall a, b | 0 <= a < b < |columns| ensures s.header[a] != s.header[b] {
      assert columns[a] in Fields && columns[b] in Fields;
    }
    forall h | h in s.header ensures h in FieldHeaders {
      var j :| 0 <= j < |s.header| && s.header[j] == h;
      assert columns[j] in Fields;
    }
  }

  lemma InDataSnoc(fields: seq<string>, f: string, data: seq<Dict>)
    ensures InData(fields + [f], data) == InData(fields, data) + (if InSome(data, f) then [f] else [])
  {
    assert (fields + [f])[..|fields|] == fields;
  }

  /** The field filter written out for the five fields. */
  lemma InDataOfFields(data: seq<Dict>)
    ensures InData(Fields, data)
      == (if InSome(data, "name") then ["name"] else []) + (if InSome(data, "price") then ["price"] else [])
         + (if InSome(data, "currency") then ["currency"] else []) + (if InSome(data, "url") then ["url"] else [])
         + (if InSome(data, "instock_text") then ["instock_text"] else [])
  {
    InDataSnoc([], "name", data);
    assert [] + ["name"] == ["name"];
    InDataSnoc(["name"], "price", data);
    assert ["name"] + ["price"] == ["name", "price"];
    InDataSnoc(["name", "price"], "currency", data);
    assert ["name", "price"] + ["currency"] == ["name", "price", "currency"];
    InDataSnoc(["name", "price", "currency"], "url", data);
    assert ["name", "price", "currency"] + ["url"] == ["name", "price", "currency", "url"];
    InDataSnoc(["name", "price", "currency", "url"], "instock_text", data);
    assert ["name", "price", "currency", "url"] + ["instock_text"] == Fields;
  }

  /** With one record, the frame's columns are that record's keys. */
  lemma InSomeOfOne(item: Dict, key: string)
    ensures InSome([item], key) <==> HasKey(item, key)
  {
    assert [item][0] == item;
  }

  /** A two-entry record has exactly its two keys. */
  lemma HasKeyOfTwo(item: Dict, key: string)
    requires |item| == 2
    ensures HasKey(item, key) <==> key == item[0].0 || key == item[1].0
  {
    if key == item[0].0 {
      assert item[0].0 == key;
    } else if key == item[1].0 {
      assert item[1].0 == key;
    }
  }

  /** The frame of a record that has `name` and then `url` has those two columns. */
  lemma {:induction false} XlsxColumnsOfNameAndUrl(item: Dict)
    requires |item| == 2 && item[0].0 == "name" && item[1].0 == "url"
    ensures InData(Fields, [item]) == ["name", "url"]
  {
    InDataOfFields([item]);
    InSomeOfOne(item, "name");
    InSomeOfOne(item, "price");
    InSomeOfOne(item, "currency");
    InSomeOfOne(item, "url");
    InSomeOfOne(item, "instock_text");
    HasKeyOfTwo(item, "name");
    HasKeyOfTwo(item, "price");
    HasKeyOfTwo(item, "currency");
    HasKeyOfTwo(item, "url");
    HasKeyOfTwo(item, "instock_text");
    assert InData(Fields, [item]) == ["name"] + ["url"];
  }

  /** The sheet of a record that has `name` and then `url`. */
  lemma {:induction false} XlsxSheetOfNameAndUrl(item: Dict)
    requires |item| == 2 && item[0].0 == "name" && item[1].0 == "url"
    ensures XlsxSheet([item])
      == Some(Sheet(["Название", "Ссылка"], [[Some(Get(item, "name", "")), Some(Get(item, "url", ""))]]))
  {
    XlsxColumnsOfNameAndUrl(item);
    HasKeyOfTwo(item, "name");
    HasKeyOfTwo(item, "url");
    var s := XlsxSheet([item]).value;
    assert [item][0] == item;
    var row := XlsxRow(item, ["name", "url"]);
    assert s.rows == [row];
    assert row == [XlsxCell(item, "name"), XlsxCell(item, "url")];
    assert s.header == [HeaderName("name"), HeaderName("url")];
  }

  /** The encoding test's record: column 1 holds the name and column 2 the URL. */
  lemma XlsxExample()
    ensures XlsxSheet([[("name", "Тестовая строка"), ("url", "https://пример.ру")]])
      == Some(Sheet(["Название", "Ссылка"], [[Some("Тестовая строка"), Some("https://пример.ру")]]))
  {
    var item: Dict := [("name", "Тестовая строка"), ("url", "https://пример.ру")];
    XlsxSheetOfNameAndUrl(item);
    assert Get(item, "name", "") == "Тестовая строка" && Get(item, "url", "") == "https://пример.ру";
  }

  /** An HTML cell: text, or a link with its target and its text. */
  datatype HtmlCell = Text(shown: string) | Link(href: string, caption: string)

  datatype HtmlTable = HtmlTable(header: seq<string>, rows: seq<seq<HtmlCell>>)

  /** What an empty or missing value is shown as. */
  const Dash: string := "—"

  /** The cell of a field: the URL as a link to itself, any other value as text, or a dash when it is empty. */
  function HtmlCellOf(row: Dict, field: string): HtmlCell
  {
    var value := Get(row, field, "");
    if field == "url" then Link(value, value) else Text(if value != "" then value else Dash)
  }

  /** `render_html`'s table: always the five fields under their Russian headers. */
  function RenderHtml(data: seq<Dict>): (t: Option<HtmlTable>)
    ensures t.None? <==> data == []
  {
    if data == [] then None
    else
      Some(HtmlTable(Headers(Fields),
                     seq(|data|, i requires 0 <= i < |data| =>
                       seq(|Fields|, j requires 0 <= j < |Fields| => HtmlCellOf(data[i], Fields[j])))))
  }

  /** The value a reader takes from a cell: the link target, or the text unless it is the dash. */
  function ShownValue(cell: HtmlCell): string
  {
    match cell
    case Link(href, _) => href
    case Text(shown) => if shown == Dash then "" else shown
  }

  /**
   * The HTML table has the five Russian headers and five cells per record; no text cell
   * is blank; and every value but a literal dash can be read back from its cell, the URL
   * cell linking to the URL it shows.
   */
  lemma HtmlCellsShowValues(data: seq<Dict>, i: nat, j: nat)
    requires i < |data| && j < |Fields|
    ensures var t := RenderHtml(data).value;
      t.header == FieldHeaders && |t.rows[i]| == 5
      && (Fields[j] == "url" <==> t.rows[i][j].Link?)
      && (t.rows[i][j].Link? ==> t.rows[i][j].href == t.rows[i][j].caption)
      && (t.rows[i][j].Text? ==> t.rows[i][j].shown != "")
      && (Get(data[i], Fields[j], "") != Dash ==> ShownValue(t.rows[i][j]) == Get(data[i], Fields[j], ""))
  {
    HeaderNameTable();
  }

  /** The HTML rows of a single record: its five field cells. */
  lemma HtmlRowsOfOne(item: Dict)
    ensures RenderHtml([item]).value.rows
      == [[HtmlCellOf(item, "name"), HtmlCellOf(item, "price"), HtmlCellOf(item, "currency"),
           HtmlCellOf(item, "url"), HtmlCellOf(item, "instock_text")]]
  {
    var rows := RenderHtml([item]).value.rows;
    var expected := [HtmlCellOf(item, "name"), HtmlCellOf(item, "price"), HtmlCellOf(item, "currency"),
                     HtmlCellOf(item, "url"), HtmlCellOf(item, "instock_text")];
    assert [item][0] == item;
    forall j | 0 <= j < 5 ensures rows[0][j] == expected[j] {
      assert rows[0][j] == HtmlCellOf(item, Fields[j]);
    }
    assert rows[0] == expected;
  }

  /** A record that starts with the five fields, in field order, holds its first five values under them. */
  lemma GetInFieldOrder(item: Dict)
    requires |item| >= 5 && item[0].0 == "name" && item[1].0 == "price" && item[2].0 == "currency"
    requires item[3].0 == "url" && item[4].0 == "instock_text"
    ensures Get(item, "name", "") == item[0].1 && Get(item, "price", "") == item[1].1
    ensures Get(item, "currency", "") == item[2].1 && Get(item, "url", "") == item[3].1
    ensures Get(item, "instock_text", "") == item[4].1
  {
    GetAt(item, 0, "");
    GetAt(item, 1, "");
    GetAt(item, 2, "");
    GetAt(item, 3, "");
    GetAt(item, 4, "");
  }

  /** A record whose five values are all non-empty is shown as those values, the URL as a link. */
  lemma HtmlRowOfFilledRecord(item: Dict, name: string, price: string, currency: string, url: string, instock: string)
    requires Get(item, "name", "") == name != "" && Get(item, "price", "") == price != ""
    requires Get(item, "currency", "") == currency != "" && Get(item, "instock_text", "") == instock != ""
    requires Get(item, "url", "") == url
    ensures RenderHtml([item]).value.rows == [[Text(name), Text(price), Text(currency), Link(url, url), Text(instock)]]
  {
    HtmlRowsOfOne(item);
  }

  /** The record of the HTML test: the five fields and one key outside them. */
  const LampRecord: Dict := [("name", "Люстра"), ("price", "12990"), ("currency", "RUB"),
                             ("url", "https://example.com/lamp"), ("instock_text", "В наличии"),
                             ("instock_schema", "InStock")]

  /** The HTML test's record: its five values in order; the key outside the fields is not shown. */
  lemma HtmlExample()
    ensures RenderHtml([LampRecord]).value.rows
      == [[Text("Люстра"), Text("12990"), Text("RUB"),
           Link("https://example.com/lamp", "https://example.com/lamp"), Text("В наличии")]]
  {
    GetInFieldOrder(LampRecord);
    HtmlRowOfFilledRecord(LampRecord, "Люстра", "12990", "RUB", "https://example.com/lamp", "В наличии");
  }

  /** `save_json`'s output: the records unchanged, or nothing for no records. */
  function JsonDump(data: seq<Dict>): (j: Option<seq<Dict>>)
    ensures j.None? <==> data == []
    ensures j.Some? ==> j.value == data
  {
    if data == [] then None else Some(data)
  }

  /** What `save_all` produces: the four outputs. */
  datatype Saved = Saved(csv: Option<Table>, json: Option<seq<Dict>>, xlsx: Option<Sheet>, html: Option<HtmlTable>)

  /** `save_all`: every saver on the same records. */
  method SaveAll(data: seq<Dict>) returns (saved: Saved)
    ensures saved == Saved(CsvTable(data), JsonDump(data), XlsxSheet(data), RenderHtml(data))
    ensures saved.csv.None? && saved.json.None? && saved.xlsx.None? && saved.html.None? <==> data == []
  {
    var csv := SaveCsv(data);
    saved := Saved(csv, JsonDump(data), XlsxSheet(data), RenderHtml(data));
  }
}
