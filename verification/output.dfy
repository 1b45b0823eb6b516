/**
  The output table's layout: eleven fixed columns, then five columns per
  configured attribute in configuration order, and every record projected
  onto that header with missing cells left blank.
 */
module Output {
  import opened Strings
  import opened Cells
  import opened Records
  import opened Classify
  import opened Keys

  /** The fixed columns, in output order. */
  const FixedColumns: seq<Column> :=
    [ProductType, PostType, PostTitle, Sku, ParentSkuColumn, RegularPrice, StockStatus, Categories,
     ShortDescription, Description, Images]

  /** The column names of `cols`, in order. */
  function Names(cols: seq<Column>): (r: seq<string>)
    ensures |r| == |cols|
    ensures forall i :: 0 <= i < |cols| ==> r[i] == Name(cols[i])
  {
    if cols == [] then [] else [Name(cols[0])] + Names(cols[1..])
  }

  /** The five columns of one attribute, in output order. */
  function AttributeColumns(slug: string): seq<Column> {
    [Attr(AttrValue, slug), Attr(AttrData, slug), Attr(AttrDefault, slug), Attr(AttrVariation, slug),
     Attr(AttrMeta, slug)]
  }

  /** The attribute columns of the whole configuration. */
  function AttrColumns(config: seq<AttrConfig>): (r: seq<Column>)
    ensures |r| == 5 * |config|
  {
    if config == [] then [] else AttributeColumns(config[0].slug) + AttrColumns(config[1..])
  }

  /** Every attribute column is a field of a configured slug. */
  lemma {:induction false} AttrColumnsOfSlugs(config: seq<AttrConfig>, c: Column)
    requires c in AttrColumns(config)
    ensures c.Attr? && c.slug in Slugs(config)
  {
    assert config[0] in config;
    if c !in AttributeColumns(config[0].slug) {
      AttrColumnsOfSlugs(config[1..], c);
      var d :| d in config[1..] && d.slug == c.slug;
      assert d in config;
    }
  }

  /** The attribute columns come in blocks of five, one block per
      configured attribute, in configuration order. */
  lemma {:induction false} AttrColumnsBlock(config: seq<AttrConfig>, i: nat)
    requires i < |config|
    ensures AttrColumns(config)[5 * i..5 * i + 5] == AttributeColumns(config[i].slug)
  {
    var head := AttributeColumns(config[0].slug);
    var rest := AttrColumns(config[1..]);
    if i == 0 {
      assert (head + rest)[..5] == head;
    } else {
      AttrColumnsBlock(config[1..], i - 1);
      assert (head + rest)[5 * i..5 * i + 5] == rest[5 * (i - 1)..5 * (i - 1) + 5];
    }
  }

  /** A name no column of `cols` carries is not among their names. */
  lemma {:induction false} NamesAvoid(cols: seq<Column>, n: string)
    requires forall c :: c in cols ==> Name(c) != n
    ensures n !in Names(cols)
  {
    if cols != [] {
      assert cols[0] in cols;
      NamesAvoid(cols[1..], n);
    }
  }

  /** No attribute column carries the name of a fixed column. */
  lemma AttrNameNotFixed(c: Column)
    requires c.Attr?
    ensures Name(c) !in Names(FixedColumns)
  {
    forall d | d in FixedColumns ensures Name(d) != Name(c) {
      NameInjective(c, d);
    }
    NamesAvoid(FixedColumns, Name(c));
  }

  /** The columns of `cols` that are not fixed columns, in order. The
      header's filter compares names; `AttrNameNotFixed` shows that for
      attribute columns the name test and the column test agree. */
  function WithoutFixed(cols: seq<Column>): (r: seq<Column>)
    ensures forall c :: c in r <==> c in cols && c !in FixedColumns
  {
    if cols == [] then []
    else
      var rest := WithoutFixed(cols[1..]);
      if cols[0] !in FixedColumns then [cols[0]] + rest else rest
  }

  /** Filtering keeps a list none of whose names is fixed. */
  lemma {:induction false} WithoutFixedKeeps(cols: seq<Column>)
    requires forall c :: c in cols ==> c !in FixedColumns
    ensures WithoutFixed(cols) == cols
  {
    if cols != [] {
      assert cols[0] in cols;
      WithoutFixedKeeps(cols[1..]);
      assert cols == [cols[0]] + cols[1..];
    }
  }

  /** The output header: the fixed columns, then the attribute columns
      whose names are not already among them. No attribute column is
      dropped, and `brand` is not laid out. */
  function Header(config: seq<AttrConfig>): (r: seq<Column>)
    ensures r == FixedColumns + AttrColumns(config)
    ensures |r| == |FixedColumns| + 5 * |config|
    ensures Brand !in r
  {
    var attrs := AttrColumns(config);
    forall c | c in attrs ensures c.Attr? {
      AttrColumnsOfSlugs(config, c);
    }
    WithoutFixedKeeps(attrs);
    FixedColumns + WithoutFixed(attrs)
  }

  /** The header line of the output: the header's column names. */
  function HeaderNames(config: seq<AttrConfig>): seq<string> {
    Names(Header(config))
  }

  /** One record laid out along the header: the record's text for the
      columns it has, a blank for the others. */
  function ProjectRow(header: seq<Column>, rec: Record): (r: seq<string>)
    ensures |r| == |header|
  {
    if header == [] then [] else [CellText(rec, header[0])] + ProjectRow(header[1..], rec)
  }

  /** Cell `k` of a laid-out record is the record's text for header
      column `k`, or a blank when the record lacks that column. */
  lemma {:induction false} ProjectRowAt(header: seq<Column>, rec: Record, k: nat)
    requires k < |header|
    ensures ProjectRow(header, rec)[k] == CellText(rec, header[k])
  {
    if k > 0 {
      ProjectRowAt(header[1..], rec, k - 1);
    }
  }

  /** The first eleven cells of a laid-out record are its fixed columns, in
      header order. */
  lemma ProjectFixed(config: seq<AttrConfig>, rec: Record)
    ensures var row := ProjectRow(Header(config), rec);
            && |row| >= 11
            && row[0] == CellText(rec, ProductType)
            && row[1] == CellText(rec, PostType)
            && row[2] == CellText(rec, PostTitle)
            && row[3] == CellText(rec, Sku)
            && row[4] == CellText(rec, ParentSkuColumn)
            && row[5] == CellText(rec, RegularPrice)
            && row[6] == CellText(rec, StockStatus)
            && row[7] == CellText(rec, Categories)
            && row[8] == CellText(rec, ShortDescription)
            && row[9] == CellText(rec, Description)
            && row[10] == CellText(rec, Images)
  {
    var header := Header(config);
    assert header[..|FixedColumns|] == FixedColumns;
    ProjectRowAt(header, rec, 0);
    ProjectRowAt(header, rec, 1);
    ProjectRowAt(header, rec, 2);
    ProjectRowAt(header, rec, 3);
    ProjectRowAt(header, rec, 4);
    ProjectRowAt(header, rec, 5);
    ProjectRowAt(header, rec, 6);
    ProjectRowAt(header, rec, 7);
    ProjectRowAt(header, rec, 8);
    ProjectRowAt(header, rec, 9);
    ProjectRowAt(header, rec, 10);
  }

  /** Where attribute `i`'s five cells start in an output row: after the
      eleven fixed columns and the blocks of the attributes before it. */
  function AttrOffset(i: nat): nat {
    11 + 5 * i
  }

  /** The five cells of attribute `i` in an output row. */
  function AttributeCells(row: seq<string>, i: nat): seq<string>
    requires AttrOffset(i) + 5 <= |row|
  {
    row[AttrOffset(i)..AttrOffset(i) + 5]
  }

  /** The five cells of attribute `i` in a laid-out record are the
      record's attribute fields, in field order. */
  lemma ProjectAttribute(config: seq<AttrConfig>, rec: Record, i: nat)
    requires i < |config|
    ensures var row, slug := ProjectRow(Header(config), rec), config[i].slug;
            && AttrOffset(i) + 5 <= |row|
            && AttributeCells(row, i)
               == [CellText(rec, Attr(AttrValue, slug)), CellText(rec, Attr(AttrData, slug)),
                   CellText(rec, Attr(AttrDefault, slug)), CellText(rec, Attr(AttrVariation, slug)),
                   CellText(rec, Attr(AttrMeta, slug))]
  {
    var header := Header(config);
    var o := AttrOffset(i);
    AttrColumnsBlock(config, i);
    assert header[o..o + 5] == AttrColumns(config)[5 * i..5 * i + 5];
    ProjectSlice(header, rec, o, o + 5);
    ProjectAttributeColumns(config[i].slug, rec);
  }

  /** In two output rows, attribute `i`'s `attribute_data:` cell of the
      first cleans to one of the pipe-separated values in the `attribute:`
      cell of the second. */
  predicate ValueListed(vrow: seq<string>, prow: seq<string>, i: nat) {
    && AttrOffset(i) + 5 <= |vrow|
    && AttrOffset(i) + 5 <= |prow|
    && CleanValue(AttributeCells(vrow, i)[1]) in Split(AttributeCells(prow, i)[0], '|')
  }

  /** A variation record's attribute value that cleans to one of the
      values its parent record joins stays so in the laid-out rows. */
  lemma AttributeLink(config: seq<AttrConfig>, parent: Record, variation: Record, i: nat)
    requires i < |config|
    requires var slug := config[i].slug;
             CleanValue(CellText(variation, Attr(AttrData, slug))) in Split(CellText(parent, Attr(AttrValue, slug)), '|')
    ensures ValueListed(ProjectRow(Header(config), variation), ProjectRow(Header(config), parent), i)
  {
    ProjectAttribute(config, parent, i);
    ProjectAttribute(config, variation, i);
  }

  /** Laying out part of a header gives the same part of the row. */
  lemma ProjectSlice(header: seq<Column>, rec: Record, lo: nat, hi: nat)
    requires lo <= hi <= |header|
    ensures ProjectRow(header, rec)[lo..hi] == ProjectRow(header[lo..hi], rec)
  {
    forall k | 0 <= k < hi - lo ensures ProjectRow(header, rec)[lo..hi][k] == ProjectRow(header[lo..hi], rec)[k] {
      ProjectRowAt(header, rec, lo + k);
      ProjectRowAt(header[lo..hi], rec, k);
    }
  }

  lemma ProjectAttributeColumns(slug: string, rec: Record)
    ensures ProjectRow(AttributeColumns(slug), rec)
            == [CellText(rec, Attr(AttrValue, slug)), CellText(rec, Attr(AttrData, slug)),
                CellText(rec, Attr(AttrDefault, slug)), CellText(rec, Attr(AttrVariation, slug)),
                CellText(rec, Attr(AttrMeta, slug))]
  {
    forall k | 0 <= k < 5 ensures ProjectRow(AttributeColumns(slug), rec)[k] == CellText(rec, AttributeColumns(slug)[k]) {
      ProjectRowAt(AttributeColumns(slug), rec, k);
    }
  }

  function Project(header: seq<Column>, recs: seq<Record>): (r: seq<seq<string>>)
    ensures |r| == |recs|
    ensures forall i :: 0 <= i < |recs| ==> r[i] == ProjectRow(header, recs[i])
  {
    if recs == [] then [] else [ProjectRow(header, recs[0])] + Project(header, recs[1..])
  }

  /** Every projected row is as wide as the header. */
  lemma ProjectWidths(header: seq<Column>, recs: seq<Record>)
    ensures forall i :: 0 <= i < |recs| ==> |Project(header, recs)[i]| == |header|
  {
    forall i | 0 <= i < |recs| ensures |Project(header, recs)[i]| == |header| {
      assert Project(header, recs)[i] == ProjectRow(header, recs[i]);
    }
  }
}
