/**
 * Record assembly for one product page (deps32.py, scrape_single_product,
 * lines 28-83).
 *
 * The product page is modelled as the outcome of each lookup the extractor
 * performs: the title wait, the two specification tables (each a sequence of
 * rows whose header and data cells may be missing) and the two price parts.
 */
module Product {
  import opened Wrappers

  /** A flat field-name to field-value record. */
  type Record = map<string, string>

  /** One header/data pair read from a specification table. */
  type Entry = (string, string)

  /** One table row: the text of its th cell and of its td cell, when found. */
  datatype Row = Row(th: Option<string>, td: Option<string>)

  datatype ProductPage = ProductPage(
    title: Option<string>,          // None: navigating, the 10-second title wait or reading its text raises
    table1: Option<seq<Row>>,       // None: the first specification table is missing
    table2: Option<seq<Row>>,       // None: the second specification table is missing
    symbol: Option<string>,         // the currency symbol, when found
    whole: Option<string>)          // the whole part of the price, when found

  const LinkKey: string := "product_link"
  const PriceKey: string := "price"
  const Unavailable: string := "N/A"

  predicate Complete(row: Row)
  {
    row.th.Some? && row.td.Some?
  }

  /** The entries a table writes: one per row, up to the first row whose th
      or td lookup raises, which abandons the rest of that table. */
  function TableEntries(rows: seq<Row>): (es: seq<Entry>)
    ensures |es| <= |rows|
  {
    if rows == [] || !Complete(rows[0]) then []
    else [(rows[0].th.value, rows[0].td.value)] + TableEntries(rows[1..])
  }

  /** The entries are the cells of the leading complete rows, in order, and
      the row after them, if any, is the one that is missing a cell. */
  lemma {:induction false} TableEntriesShape(rows: seq<Row>)
    ensures forall j :: 0 <= j < |TableEntries(rows)| ==>
      rows[j] == Row(Some(TableEntries(rows)[j].0), Some(TableEntries(rows)[j].1))
    ensures |TableEntries(rows)| < |rows| ==> !Complete(rows[|TableEntries(rows)|])
    decreases |rows|
  {
    if rows != [] && Complete(rows[0]) {
      TableEntriesShape(rows[1..]);
    }
  }

  /** The entries of a table that may be missing altogether. */
  function Entries(table: Option<seq<Row>>): seq<Entry>
  {
    if table.None? then [] else TableEntries(table.value)
  }

  /** Writing the entries into a record in order, each one replacing any
      earlier value under the same header. */
  function Apply(m: Record, es: seq<Entry>): Record
  {
    if es == [] then m
    else Apply(m, es[..|es| - 1])[es[|es| - 1].0 := es[|es| - 1].1]
  }

  /** The price field: symbol, a space and the whole part, or the sentinel
      when either lookup raises (lines 70-75). */
  function PriceText(symbol: Option<string>, whole: Option<string>): string
  {
    if symbol.Some? && whole.Some? then symbol.value + " " + whole.value else Unavailable
  }

  /** The specification entries of a page, table 1 then table 2. */
  function SpecEntries(page: ProductPage): seq<Entry>
  {
    Entries(page.table1) + Entries(page.table2)
  }

  /** The record built for a page whose title was found. The link and price
      are written after the tables, so they hold whatever the tables contain,
      a table header named product_link or price included. */
  function Assemble(link: string, page: ProductPage): (r: Record)
    ensures LinkKey in r && r[LinkKey] == link
    ensures PriceKey in r
    ensures page.symbol.Some? && page.whole.Some? ==>
      r[PriceKey] == page.symbol.value + " " + page.whole.value
    ensures page.symbol.None? || page.whole.None? ==> r[PriceKey] == Unavailable
  {
    Apply(Apply(map[], Entries(page.table1)), Entries(page.table2))
      [LinkKey := link][PriceKey := PriceText(page.symbol, page.whole)]
  }

  /** What the extractor returns: the title and the record, or neither. */
  function Scrape(link: string, page: ProductPage): (Option<string>, Option<Record>)
  {
    if page.title.None? then (None, None) else (page.title, Some(Assemble(link, page)))
  }

  /** The row loop of one table (lines 45-53 and 56-64). */
  method ReadTable(record: Record, table: Option<seq<Row>>) returns (r: Record)
    ensures r == Apply(record, Entries(table))
  {
    r := record;
    if table.None? {
      return;  // the table lookup raises
    }
    var rest := table.value;  // the rows not yet read
    ghost var written: seq<Entry> := [];
    while rest != []
      invariant TableEntries(table.value) == written + TableEntries(rest)
      invariant r == Apply(record, written)
      decreases |rest|
    {
      var row := rest[0];
      if row.th.None? || row.td.None? {
        break;  // the cell lookup raises and leaves the loop
      }
      var e := (row.th.value, row.td.value);
      ApplyStep(record, written, e);
      r := r[e.0 := e.1];
      written, rest := written + [e], rest[1..];
    }
    assert written + [] == written;
  }

  lemma ApplyStep(m: Record, es: seq<Entry>, e: Entry)
    ensures Apply(m, es + [e]) == Apply(m, es)[e.0 := e.1]
  {
  }

  /**
   * scrape_single_product over an abstract page. A page whose title wait
   * fails gives (None, None); otherwise the title and the assembled record,
   * which always carries the input link and a price.
   */
  method ScrapeSingleProduct(link: string, page: ProductPage)
    returns (title: Option<string>, data: Option<Record>)
    ensures (title, data) == Scrape(link, page)
    ensures title.None? <==> page.title.None?
    ensures data.None? <==> page.title.None?
    ensures data.Some? ==> LinkKey in data.value && data.value[LinkKey] == link
    ensures data.Some? ==> PriceKey in data.value
  {
    if page.title.None? {
      return None, None;
    }
    var record: Record := map[];
    record := ReadTable(record, page.table1);
    record := ReadTable(record, page.table2);
    record := record[LinkKey := link];
    if page.symbol.Some? && page.whole.Some? {
      record := record[PriceKey := page.symbol.value + " " + page.whole.value];
    } else {
      record := record[PriceKey := Unavailable];
    }
    return page.title, Some(record);
  }

  /** Writing two runs of entries one after the other is writing their
      concatenation: table 1 is applied before table 2. */
  lemma {:induction false} ApplyAppend(m: Record, a: seq<Entry>, b: seq<Entry>)
    ensures Apply(m, a + b) == Apply(Apply(m, a), b)
    decreases |b|
  {
    if b != [] {
      var n := |b| - 1;
      assert (a + b)[..|a + b| - 1] == a + b[..n];
      assert (a + b)[|a + b| - 1] == b[n];
      ApplyAppend(m, a, b[..n]);
    } else {
      assert a + b == a;
    }
  }

  /** The last entry written under a header is the value the record keeps. */
  lemma {:induction false} ApplyLastWins(m: Record, es: seq<Entry>, i: nat)
    requires i < |es|
    requires forall j :: i < j < |es| ==> es[j].0 != es[i].0
    ensures es[i].0 in Apply(m, es) && Apply(m, es)[es[i].0] == es[i].1
    decreases |es|
  {
    var n := |es| - 1;
    if i < n {
      ApplyLastWins(m, es[..n], i);
    }
  }

  /** A header no entry writes keeps its earlier value, or stays absent. */
  lemma {:induction false} ApplyUntouched(m: Record, es: seq<Entry>, k: string)
    requires forall j :: 0 <= j < |es| ==> es[j].0 != k
    ensures k in Apply(m, es) <==> k in m
    ensures k in m ==> Apply(m, es)[k] == m[k]
    decreases |es|
  {
    if es != [] {
      ApplyUntouched(m, es[..|es| - 1], k);
    }
  }

  /** The keys of the record are the earlier keys and the written headers. */
  lemma {:induction false} ApplyKeys(m: Record, es: seq<Entry>)
    ensures Apply(m, es).Keys == m.Keys + set j | 0 <= j < |es| :: es[j].0
    decreases |es|
  {
    if es != [] {
      var n := |es| - 1;
      ApplyKeys(m, es[..n]);
      assert (set j | 0 <= j < |es| :: es[j].0)
          == (set j | 0 <= j < n :: es[..n][j].0) + {es[n].0};
    }
  }

  /** A row missing its th or td ends its table: the rows before it are all
      written, in order, and no row after it is. */
  lemma {:induction false} AbandonedTable(rows: seq<Row>, i: nat)
    requires i < |rows| && !Complete(rows[i])
    requires forall j :: 0 <= j < i ==> Complete(rows[j])
    ensures |TableEntries(rows)| == i
    ensures TableEntries(rows) == TableEntries(rows[..i])
    ensures forall j :: 0 <= j < i ==>
      rows[j] == Row(Some(TableEntries(rows)[j].0), Some(TableEntries(rows)[j].1))
    decreases i
  {
    TableEntriesShape(rows);
    if i > 0 {
      AbandonedTable(rows[1..], i - 1);
      assert rows[1..][..i - 1] == rows[..i][1..];
    }
  }

  /** Every other field holds the value of the last specification row with
      that header, counting table 1 before table 2. */
  lemma RecordSpecField(link: string, page: ProductPage, i: nat)
    requires i < |SpecEntries(page)|
    requires SpecEntries(page)[i].0 != LinkKey && SpecEntries(page)[i].0 != PriceKey
    requires forall j :: i < j < |SpecEntries(page)| ==> SpecEntries(page)[j].0 != SpecEntries(page)[i].0
    ensures SpecEntries(page)[i].0 in Assemble(link, page)
    ensures Assemble(link, page)[SpecEntries(page)[i].0] == SpecEntries(page)[i].1
  {
    ApplyAppend(map[], Entries(page.table1), Entries(page.table2));
    ApplyLastWins(map[], SpecEntries(page), i);
  }

  /** The record's fields are exactly the two fixed keys and the headers of
      the rows that were written. */
  lemma RecordKeys(link: string, page: ProductPage)
    ensures Assemble(link, page).Keys ==
      {LinkKey, PriceKey} + set j | 0 <= j < |SpecEntries(page)| :: SpecEntries(page)[j].0
  {
    ApplyAppend(map[], Entries(page.table1), Entries(page.table2));
    ApplyKeys(map[], SpecEntries(page));
  }

  /** With both tables absent, the record holds exactly product_link and price. */
  lemma NoTables(link: string, page: ProductPage)
    requires page.table1.None? && page.table2.None?
    ensures Assemble(link, page).Keys == {LinkKey, PriceKey}
  {
  }
}
