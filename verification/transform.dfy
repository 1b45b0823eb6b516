/**
  The whole import transform: group the rows by product name, emit a
  parent record and then one variation record per row for every group,
  and lay the records out along the output header. With no attribute
  configured and at least one product to emit, the transform stops with
  a warning and produces nothing.
 */
module Transform {
  import opened Strings
  import opened Cells
  import opened Classify
  import opened Grouping
  import opened Records
  import opened Output
  import opened Seqs
  import opened Keys
  import opened Order

  /** Everything the transform reads: the sheet's column names and rows,
      the three role columns, the brand name and the attribute
      configuration. */
  datatype Input = Input(columns: seq<string>, rows: seq<Row>, roles: Roles, brand: string,
                         config: seq<AttrConfig>)

  datatype TransformError = NoAttributesConfigured

  /** The output table: header and data rows, every cell text. */
  datatype Table = Table(header: seq<string>, rows: seq<seq<string>>)

  datatype Outcome = Success(table: Table) | Failure(error: TransformError)

  /** `df['brand'] = brand_name`: the row reads the typed brand in column
      `brand`, whatever it held there before, and is unchanged elsewhere. */
  function Stamp(row: Row, brand: string): (r: Row)
    ensures Get(r, "brand") == Text(brand)
    ensures forall col :: col != "brand" ==> Get(r, col) == Get(row, col)
  {
    row["brand" := Text(brand)]
  }

  function StampRows(rows: seq<Row>, brand: string): (r: seq<Row>)
    ensures |r| == |rows|
    ensures forall j :: 0 <= j < |rows| ==> r[j] == Stamp(rows[j], brand)
  {
    if rows == [] then [] else [Stamp(rows[0], brand)] + StampRows(rows[1..], brand)
  }

  /** The groups with every row stamped: the frame column is set after
      `groupby`, so names and membership are fixed before the stamp while
      the rows each group yields carry it. */
  function StampGroups(groups: seq<Group>, brand: string): (r: seq<Group>)
    ensures |r| == |groups|
    ensures forall k :: 0 <= k < |groups| ==>
              r[k].name == groups[k].name && r[k].rows == StampRows(groups[k].rows, brand)
  {
    if groups == [] then [] else [Group(groups[0].name, StampRows(groups[0].rows, brand))] + StampGroups(groups[1..], brand)
  }

  lemma {:induction false} StampTotal(groups: seq<Group>, brand: string)
    ensures TotalRows(StampGroups(groups, brand)) == TotalRows(groups)
  {
    if groups != [] {
      StampTotal(groups[1..], brand);
      assert StampGroups(groups, brand)[1..] == StampGroups(groups[1..], brand);
    }
  }

  /** The frame's columns once `brand` is set: the sheet's, and `brand`. */
  function SheetColumns(inp: Input): (r: seq<string>)
    ensures forall c :: c in r <==> c in inp.columns || c == "brand"
  {
    inp.columns + ["brand"]
  }

  /** The products the loop visits, each with at least one row; together
      they hold every row that has a product name, and there are none
      exactly when no row has one. */
  function Groups(inp: Input): (r: seq<Group>)
    ensures NonEmptyGroups(r)
    ensures TotalRows(r) == |KeyedNames(inp.rows, inp.roles.product)|
    ensures r == [] <==> forall i :: 0 <= i < |inp.rows| ==> Get(inp.rows[i], inp.roles.product).Absent?
  {
    var groups := GroupBy(inp.rows, inp.roles.product);
    GroupByEmpty(inp.rows, inp.roles.product);
    GroupByPartition(inp.rows, inp.roles.product);
    StampTotal(groups, inp.brand);
    StampGroups(groups, inp.brand)
  }

  /** The products come in ascending name order, and product `k` holds
      the rows named like it, in sheet order, each stamped with the brand. */
  lemma GroupRows(inp: Input, k: nat)
    requires k < |Groups(inp)|
    ensures forall m :: k < m < |Groups(inp)| ==> Less(Groups(inp)[k].name, Groups(inp)[m].name)
    ensures Groups(inp)[k].rows == StampRows(RowsNamed(inp.rows, inp.roles.product, Groups(inp)[k].name), inp.brand)
  {
  }

  /** Every row of every product reads the typed brand in column `brand`. */
  lemma GroupBrand(inp: Input, k: nat, j: nat)
    requires k < |Groups(inp)| && j < |Groups(inp)[k].rows|
    ensures Get(Groups(inp)[k].rows[j], "brand") == Text(inp.brand)
  {
    GroupRows(inp, k);
  }

  predicate NonEmptyGroups(groups: seq<Group>) {
    forall i :: 0 <= i < |groups| ==> groups[i].rows != []
  }

  function GroupSku(inp: Input, g: Group): string
    requires g.rows != []
  {
    ParentSku(inp.brand, g.rows[0], inp.roles)
  }

  function GroupParent(inp: Input, g: Group): Record
    requires g.rows != []
  {
    ParentRecord(g.name, g.rows, SheetColumns(inp), inp.roles, inp.brand, inp.config)
  }

  function GroupVariation(inp: Input, g: Group, row: Row): Record
    requires g.rows != []
  {
    VariationRecord(g.name, row, GroupSku(inp, g), SheetColumns(inp), inp.roles, inp.config)
  }

  function VariationRecords(inp: Input, g: Group, rows: seq<Row>): (r: seq<Record>)
    requires g.rows != []
    ensures |r| == |rows|
    ensures forall j :: 0 <= j < |rows| ==> r[j] == GroupVariation(inp, g, rows[j])
  {
    if rows == [] then [] else [GroupVariation(inp, g, rows[0])] + VariationRecords(inp, g, rows[1..])
  }

  /** The records of one product: its parent, then one variation per row in
      row order (see `ProductParent` and `ProductVariation`). */
  function ProductRecords(inp: Input, g: Group): (r: seq<Record>)
    requires g.rows != []
    ensures |r| == 1 + |g.rows|
  {
    [GroupParent(inp, g)] + VariationRecords(inp, g, g.rows)
  }

  /** A product's records start with its parent record. */
  lemma ProductParent(inp: Input, g: Group)
    requires g.rows != []
    ensures ProductRecords(inp, g)[0] == GroupParent(inp, g)
  {
  }

  /** Record `1 + j` of a product is the variation of its `j`-th row. */
  lemma ProductVariation(inp: Input, g: Group, j: nat)
    requires g.rows != [] && j < |g.rows|
    ensures ProductRecords(inp, g)[1 + j] == GroupVariation(inp, g, g.rows[j])
  {
  }

  /** The records of every product, product by product: block `k` holds
      the records of product `k`. */
  function ProductBlocks(inp: Input, groups: seq<Group>): (r: seq<seq<Record>>)
    requires NonEmptyGroups(groups)
    ensures |r| == |groups|
    ensures forall k :: 0 <= k < |groups| ==> |r[k]| == 1 + |groups[k].rows|
  {
    seq(|groups|, k requires 0 <= k < |groups| => ProductRecords(inp, groups[k]))
  }

  function AllRecords(inp: Input, groups: seq<Group>): seq<Record>
    requires NonEmptyGroups(groups)
  {
    Flatten(ProductBlocks(inp, groups))
  }

  /** Where the records of group `k` start: after the parent and the
      variations of every earlier group. */
  function Offset(inp: Input, groups: seq<Group>, k: nat): nat
    requires NonEmptyGroups(groups) && k <= |groups|
  {
    Start(ProductBlocks(inp, groups), k)
  }

  /** Product `k`'s records start after one parent and all the variations
      of each earlier product. */
  lemma OffsetRows(inp: Input, groups: seq<Group>, k: nat)
    requires NonEmptyGroups(groups) && k <= |groups|
    ensures Offset(inp, groups, k) == k + TotalRows(groups[..k])
  {
    StartRows(ProductBlocks(inp, groups), groups, k);
  }

  /** One record per product plus one per row. */
  lemma AllRecordsLength(inp: Input, groups: seq<Group>)
    requires NonEmptyGroups(groups)
    ensures |AllRecords(inp, groups)| == |groups| + TotalRows(groups)
  {
    FlattenLength(ProductBlocks(inp, groups));
    StartRows(ProductBlocks(inp, groups), groups, |groups|);
    assert groups[..|groups|] == groups;
  }

  /** The data rows of the output for the given products. */
  function Render(inp: Input, groups: seq<Group>): seq<seq<string>>
    requires NonEmptyGroups(groups)
  {
    Project(Header(inp.config), AllRecords(inp, groups))
  }

  /** The transform. */
  function Transform(inp: Input): (r: Outcome)
    ensures r.Failure? <==>
              inp.config == [] && exists i :: 0 <= i < |inp.rows| && Get(inp.rows[i], inp.roles.product).Text?
    ensures r.Success? ==> r.table.header == Names(FixedColumns + AttrColumns(inp.config))
    ensures r.Success? ==> |r.table.rows| == |Groups(inp)| + |KeyedNames(inp.rows, inp.roles.product)|
    ensures r.Success? ==> forall i :: 0 <= i < |r.table.rows| ==> |r.table.rows[i]| == |r.table.header|
  {
    var groups := Groups(inp);
    if inp.config == [] && groups != [] then Failure(NoAttributesConfigured)
    else
      AllRecordsLength(inp, groups);
      var header := Header(inp.config);
      ProjectWidths(header, AllRecords(inp, groups));
      Success(Table(Names(header), Render(inp, groups)))
  }

  /** Past the guard, the transform renders the products `GroupBy` finds,
      each of which has at least one row. */
  lemma TransformRenders(inp: Input)
    requires inp.config != [] || Groups(inp) == []
    ensures NonEmptyGroups(Groups(inp))
    ensures Transform(inp) == Success(Table(HeaderNames(inp.config), Render(inp, Groups(inp))))
  {
  }

  /** Each product's records sit together: the parent at the group's
      offset, followed by its variations in row order. */
  lemma Layout(inp: Input, groups: seq<Group>, k: nat)
    requires NonEmptyGroups(groups) && k < |groups|
    ensures Offset(inp, groups, k) + 1 + |groups[k].rows| <= |AllRecords(inp, groups)|
    ensures AllRecords(inp, groups)[Offset(inp, groups, k)..Offset(inp, groups, k) + 1 + |groups[k].rows|]
              == ProductRecords(inp, groups[k])
  {
    FlattenBlock(ProductBlocks(inp, groups), k);
  }

  /** Product `k`'s parent row sits at the product's offset. */
  lemma ParentRow(inp: Input, groups: seq<Group>, k: nat)
    requires NonEmptyGroups(groups) && k < |groups|
    ensures Offset(inp, groups, k) < |Render(inp, groups)|
    ensures Render(inp, groups)[Offset(inp, groups, k)] == ProjectRow(Header(inp.config), GroupParent(inp, groups[k]))
  {
    var o := Offset(inp, groups, k);
    var recs := AllRecords(inp, groups);
    Layout(inp, groups, k);
    ProductParent(inp, groups[k]);
    assert recs[o] == recs[o..o + 1 + |groups[k].rows|][0];
    RenderAt(inp, groups, o);
  }

  /** Product `k`'s `j`-th variation row follows its parent row after
      `j` earlier variations. */
  lemma VariationRow(inp: Input, groups: seq<Group>, k: nat, j: nat)
    requires NonEmptyGroups(groups) && k < |groups| && j < |groups[k].rows|
    ensures Offset(inp, groups, k) + 1 + j < |Render(inp, groups)|
    ensures Render(inp, groups)[Offset(inp, groups, k) + 1 + j]
              == ProjectRow(Header(inp.config), GroupVariation(inp, groups[k], groups[k].rows[j]))
  {
    var o := Offset(inp, groups, k);
    var recs := AllRecords(inp, groups);
    Layout(inp, groups, k);
    ProductVariation(inp, groups[k], j);
    assert recs[o + 1 + j] == recs[o..o + 1 + |groups[k].rows|][1 + j];
    RenderAt(inp, groups, o + 1 + j);
  }

  /** Output row `o` is record `o`, laid out along the header. */
  lemma RenderAt(inp: Input, groups: seq<Group>, o: nat)
    requires NonEmptyGroups(groups) && o < |AllRecords(inp, groups)|
    ensures o < |Render(inp, groups)|
    ensures Render(inp, groups)[o] == ProjectRow(Header(inp.config), AllRecords(inp, groups)[o])
  {
  }

  /** With an attribute configured, product `k`'s parent row is the
      output row after `k` earlier parents and every earlier product's
      variations. */
  lemma TransformParentRow(inp: Input, k: nat)
    requires inp.config != [] && k < |Groups(inp)|
    ensures Transform(inp).Success?
    ensures var rows, o := Transform(inp).table.rows, k + TotalRows(Groups(inp)[..k]);
            && o < |rows|
            && rows[o] == ProjectRow(Header(inp.config), GroupParent(inp, Groups(inp)[k]))
  {
    var groups := Groups(inp);
    TransformRenders(inp);
    var rows := Transform(inp).table.rows;
    assert rows == Render(inp, groups);
    OffsetRows(inp, groups, k);
    ParentRow(inp, groups, k);
    var o := Offset(inp, groups, k);
    assert rows[o] == ProjectRow(Header(inp.config), GroupParent(inp, groups[k]));
  }

  /** With an attribute configured, the variation of product `k`'s `j`-th
      row comes `1 + j` rows after the product's parent row. */
  lemma TransformVariationRow(inp: Input, k: nat, j: nat)
    requires inp.config != [] && k < |Groups(inp)| && j < |Groups(inp)[k].rows|
    ensures Transform(inp).Success?
    ensures var rows, g, o := Transform(inp).table.rows, Groups(inp)[k], k + TotalRows(Groups(inp)[..k]);
            && o + 1 + j < |rows|
            && rows[o + 1 + j] == ProjectRow(Header(inp.config), GroupVariation(inp, g, g.rows[j]))
  {
    var groups := Groups(inp);
    var g := groups[k];
    TransformRenders(inp);
    var rows := Transform(inp).table.rows;
    assert rows == Render(inp, groups);
    OffsetRows(inp, groups, k);
    VariationRow(inp, groups, k, j);
    var o := Offset(inp, groups, k);
    assert rows[o + 1 + j] == ProjectRow(Header(inp.config), GroupVariation(inp, g, g.rows[j]));
  }

  /** Every variation row of a product names its parent: its `parent_sku`
      cell holds exactly the `sku` cell of the product's parent row. */
  lemma SkuShared(inp: Input, k: nat, j: nat)
    requires inp.config != [] && k < |Groups(inp)| && j < |Groups(inp)[k].rows|
    ensures var rows, o := Transform(inp).table.rows, k + TotalRows(Groups(inp)[..k]);
            && o + 1 + j < |rows|
            && |rows[o]| > 4 && |rows[o + 1 + j]| > 4
            && rows[o + 1 + j][4] == rows[o][3]
  {
    var g := Groups(inp)[k];
    TransformParentRow(inp, k);
    TransformVariationRow(inp, k, j);
    ParentCells(inp, g);
    VariationCells(inp, g, g.rows[j]);
  }

  /** The fixed columns of a parent row: a variable product titled with the
      product name, carrying the parent SKU, in stock, with no parent SKU
      and no regular price, and the first row's category, descriptions
      and image. */
  lemma ParentCells(inp: Input, g: Group)
    requires g.rows != []
    ensures var row := ProjectRow(Header(inp.config), GroupParent(inp, g));
            var first := g.rows[0];
            && |row| >= 11
            && row[0] == "variable"
            && row[1] == "product"
            && row[2] == g.name
            && row[3] == ParentSku(inp.brand, first, inp.roles)
            && row[4] == ""
            && row[5] == ""
            && row[6] == "instock"
            && row[7] == CsvText(Get(first, inp.roles.category))
            && row[8] == CsvText(Get(first, "Short description"))
            && row[9] == CsvText(Get(first, "Description"))
            && row[10] == CsvText(Get(first, "Image URL"))
  {
    ProjectFixed(inp.config, GroupParent(inp, g));
    ParentFixedCells(g.name, g.rows, SheetColumns(inp), inp.roles, inp.brand, inp.config);
  }

  /** The fixed columns of a variation row: a product variation titled with
      the product name, carrying its own row's SKU and image, pointing at
      the parent SKU, priced `0`, in stock, with blank category and
      descriptions. */
  lemma VariationCells(inp: Input, g: Group, source: Row)
    requires g.rows != []
    ensures var row := ProjectRow(Header(inp.config), GroupVariation(inp, g, source));
            && |row| >= 11
            && row[0] == "variation"
            && row[1] == "product_variation"
            && row[2] == g.name
            && row[3] == CsvText(Get(source, inp.roles.sku))
            && row[4] == ParentSku(inp.brand, g.rows[0], inp.roles)
            && row[5] == "0"
            && row[6] == "instock"
            && row[7] == "" && row[8] == "" && row[9] == ""
            && row[10] == CsvText(Get(source, "Image URL"))
  {
    ProjectFixed(inp.config, GroupVariation(inp, g, source));
    VariationFixedCells(g.name, source, GroupSku(inp, g), SheetColumns(inp), inp.roles, inp.config);
  }

  /** The attribute cells of a parent row, slugs distinct: the joined
      sorted values, the visibility flags, a blank default, `1` and a blank
      meta cell when some value survives cleaning, five blanks otherwise. */
  lemma ParentAttributeRow(inp: Input, g: Group, i: nat)
    requires g.rows != [] && DistinctSlugs(inp.config) && i < |inp.config|
    ensures var row, c := ProjectRow(Header(inp.config), GroupParent(inp, g)), inp.config[i];
            && AttrOffset(i) + 5 <= |row|
            && AttributeCells(row, i) ==
                 if Emits(c, SheetColumns(inp), g.rows)
                 then [Join("|", ParentValues(g.rows, c.col)), VisibilityFlags(c.visibleInfo), "", "1", ""]
                 else ["", "", "", "", ""]
  {
    ProjectAttribute(inp.config, GroupParent(inp, g), i);
    ParentAttributeCells(g.name, g.rows, SheetColumns(inp), inp.roles, inp.brand, inp.config, i);
  }

  /** The attribute cells of a variation row, slugs distinct: the row's
      variation value in the `attribute_data:` cell and blanks elsewhere. */
  lemma VariationAttributeRow(inp: Input, g: Group, source: Row, i: nat)
    requires g.rows != [] && DistinctSlugs(inp.config) && i < |inp.config|
    ensures var row := ProjectRow(Header(inp.config), GroupVariation(inp, g, source));
            && AttrOffset(i) + 5 <= |row|
            && AttributeCells(row, i) == ["", VariationValue(inp.config[i], SheetColumns(inp), source), "", "", ""]
  {
    ProjectAttribute(inp.config, GroupVariation(inp, g, source), i);
    VariationAttributeCells(g.name, source, GroupSku(inp, g), SheetColumns(inp), inp.roles, inp.config, i);
  }

  /** A variation row's populated attribute value (see
      `VariationAttributeRow`), once cleaned, is one of the values its
      parent row lists for that attribute, provided no cell of the
      attribute's column holds a comma or a pipe. */
  lemma VariationMatchesParent(inp: Input, g: Group, source: Row, i: nat)
    requires g.rows != [] && source in g.rows && DistinctSlugs(inp.config) && i < |inp.config|
    requires var col := inp.config[i].col;
             forall r :: 0 <= r < |g.rows| && Get(g.rows[r], col).Text? ==>
               ',' !in Get(g.rows[r], col).text && '|' !in Get(g.rows[r], col).text
    requires VariationValue(inp.config[i], SheetColumns(inp), source) != ""
    ensures ValueListed(ProjectRow(Header(inp.config), GroupVariation(inp, g, source)),
                        ProjectRow(Header(inp.config), GroupParent(inp, g)), i)
  {
    var parent := GroupParent(inp, g);
    var variation := GroupVariation(inp, g, source);
    VariationMatchesParentRecord(g.name, g.rows, source, GroupSku(inp, g), SheetColumns(inp), inp.roles, inp.brand, inp.config, i);
    AttributeLink(inp.config, parent, variation, i);
  }

  /** An attribute on column `brand` reads the typed brand rather than the
      sheet's cells, since the loop sees the frame after `df['brand']` is
      set: the parent lists the cleaned brand, or skips the attribute when
      the brand is blank. */
  lemma BrandParentAttribute(inp: Input, k: nat, i: nat)
    requires k < |Groups(inp)| && DistinctSlugs(inp.config) && i < |inp.config| && inp.config[i].col == "brand"
    ensures var row := ProjectRow(Header(inp.config), GroupParent(inp, Groups(inp)[k]));
            && AttrOffset(i) + 5 <= |row|
            && AttributeCells(row, i)[0] == if HasContent(Text(inp.brand)) then CleanValue(inp.brand) else ""
  {
    var g := Groups(inp)[k];
    forall r | 0 <= r < |g.rows| ensures Get(g.rows[r], "brand") == Text(inp.brand) {
      GroupBrand(inp, k, r);
    }
    ParentValuesConstant(g.rows, "brand", inp.brand);
    ParentAttributeRow(inp, g, i);
    CleanValuesEmpty(ColumnCells(g.rows, "brand"));
  }

  /** Each variation row shows the typed brand, stripped, in the
      `attribute_data:` cell of a variation attribute on column `brand`,
      and a blank when the brand is blank or the attribute is not a
      variation one. */
  lemma BrandVariationAttribute(inp: Input, k: nat, j: nat, i: nat)
    requires k < |Groups(inp)| && j < |Groups(inp)[k].rows|
    requires DistinctSlugs(inp.config) && i < |inp.config| && inp.config[i].col == "brand"
    ensures var g := Groups(inp)[k];
            var row := ProjectRow(Header(inp.config), GroupVariation(inp, g, g.rows[j]));
            && AttrOffset(i) + 5 <= |row|
            && AttributeCells(row, i)[1] ==
                 if inp.config[i].isVariation && HasContent(Text(inp.brand)) then Strip(inp.brand) else ""
  {
    BrandVariationValue(inp, k, j, inp.config[i]);
    VariationAttributeIs(inp, Groups(inp)[k], Groups(inp)[k].rows[j], i,
                         if inp.config[i].isVariation && HasContent(Text(inp.brand)) then Strip(inp.brand) else "");
  }

  /** `VariationAttributeRow` for a row whose variation value is known. */
  lemma VariationAttributeIs(inp: Input, g: Group, source: Row, i: nat, v: string)
    requires g.rows != [] && DistinctSlugs(inp.config) && i < |inp.config|
    requires VariationValue(inp.config[i], SheetColumns(inp), source) == v
    ensures var row := ProjectRow(Header(inp.config), GroupVariation(inp, g, source));
            && AttrOffset(i) + 5 <= |row|
            && AttributeCells(row, i)[1] == v
  {
    VariationAttributeRow(inp, g, source, i);
  }

  lemma BrandVariationValue(inp: Input, k: nat, j: nat, c: AttrConfig)
    requires k < |Groups(inp)| && j < |Groups(inp)[k].rows| && c.col == "brand"
    ensures VariationValue(c, SheetColumns(inp), Groups(inp)[k].rows[j])
              == if c.isVariation && HasContent(Text(inp.brand)) then Strip(inp.brand) else ""
  {
    GroupBrand(inp, k, j);
    assert c.col in SheetColumns(inp);
  }
}
