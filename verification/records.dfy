/**
  The output records the transform builds: one parent record per product
  and one variation record per source row, both as dictionaries from
  column name to text. Attribute columns are named by a field prefix and
  the attribute's slug.
 */
module Records {
  import opened Seqs
  import opened Strings
  import opened Cells
  import opened Order
  import opened Classify
  import opened Keys

  /** One output record: column to cell text. */
  type Record = map<Column, string>

  /** `a` and `b` agree on `k`: both lack it, or both map it to the same text. */
  predicate Agree(a: Record, b: Record, k: Column) {
    (k in a <==> k in b) && (k in a ==> a[k] == b[k])
  }

  /** The text a record shows in column `k`: its cell, or a blank when the
      record has no such column (the CSV writer prints a missing cell as
      an empty field). */
  function CellText(rec: Record, k: Column): string {
    if k in rec then rec[k] else ""
  }

  /** `brand_name.upper().replace(' ', '')`: it holds no space (see
      `BrandPrefixSpec` for the rest). */
  function BrandPrefix(brand: string): (r: string)
    ensures ' ' !in r
  {
    Remove(Upper(brand), ' ')
  }

  /** The brand prefix keeps the upper-cased brand's characters other than
      space, in order, and is as long as the brand without its spaces: no
      lower-case ASCII letter is left, and a character occurs in it exactly
      when it is not a space and some character of the brand upper-cases
      to it. */
  lemma BrandPrefixSpec(brand: string)
    ensures var r := BrandPrefix(brand);
            && IsSubsequence(r, Upper(brand))
            && |r| == |brand| - Count(brand, ' ')
            && (forall c :: c in r ==> !('a' <= c <= 'z'))
            && (forall c :: c in r <==> c != ' ' && exists i :: 0 <= i < |brand| && UpperChar(brand[i]) == c)
  {
    var u := Upper(brand);
    RemoveKeepsOrder(u, ' ');
    UpperSpaces(brand);
    forall c ensures c in u <==> exists i :: 0 <= i < |brand| && UpperChar(brand[i]) == c {
      if c in u {
        var i :| 0 <= i < |u| && u[i] == c;
        assert UpperChar(brand[i]) == c;
      }
      if exists i :: 0 <= i < |brand| && UpperChar(brand[i]) == c {
        var i :| 0 <= i < |brand| && UpperChar(brand[i]) == c;
        assert u[i] == c;
      }
    }
  }

  /** The parent SKU: the brand prefix, a hyphen, and the first row's SKU
      as an f-string renders it. */
  function ParentSku(brand: string, first: Row, roles: Roles): string {
    BrandPrefix(brand) + "-" + Formatted(Get(first, roles.sku))
  }

  /** The brand prefix is the only space-free subsequence of the
      upper-cased brand that keeps every other character: a string with
      those properties is the prefix. */
  lemma BrandPrefixUnique(brand: string, p: string)
    requires IsSubsequence(p, Upper(brand))
    requires ' ' !in p
    requires |p| == |brand| - Count(brand, ' ')
    ensures p == BrandPrefix(brand)
  {
    BrandPrefixSpec(brand);
    UpperSpaces(brand);
    RemoveUnique(p, Upper(brand), ' ');
  }

  /** A parent SKU reads as the upper-cased brand with its spaces dropped,
      a hyphen, and the first row's SKU as an f-string renders it. */
  lemma ParentSkuParts(brand: string, first: Row, roles: Roles)
    ensures var r, n, s := ParentSku(brand, first, roles), |brand| - Count(brand, ' '), Formatted(Get(first, roles.sku));
            && 0 <= n
            && |r| == n + 1 + |s|
            && IsSubsequence(r[..n], Upper(brand))
            && ' ' !in r[..n]
            && r[n] == '-'
            && r[n + 1..] == s
  {
    var p := BrandPrefix(brand);
    var r := ParentSku(brand, first, roles);
    BrandPrefixSpec(brand);
    assert r[..|p|] == p;
    assert r[|p| + 1..] == Formatted(Get(first, roles.sku));
  }

  /** The fields of a parent record that do not depend on the attributes. */
  function ParentBase(name: string, first: Row, roles: Roles, brand: string): Record {
    map[
      ProductType := "variable",
      PostType := "product",
      PostTitle := name,
      Brand := brand,
      Sku := ParentSku(brand, first, roles),
      Categories := CsvText(Get(first, roles.category)),
      StockStatus := "instock",
      ShortDescription := CsvText(Get(first, "Short description")),
      Description := CsvText(Get(first, "Description")),
      Images := CsvText(Get(first, "Image URL"))
    ]
  }

  /** One column of a group's rows, as cells. */
  function ColumnCells(rows: seq<Row>, col: string): (r: seq<Cell>)
    ensures |r| == |rows|
    ensures forall i :: 0 <= i < |rows| ==> r[i] == Get(rows[i], col)
  {
    if rows == [] then [] else [Get(rows[0], col)] + ColumnCells(rows[1..], col)
  }

  /** The parent's value list: the cleaned values of the column, sorted and
      de-duplicated. */
  function ParentValues(rows: seq<Row>, col: string): seq<string> {
    SortedDistinct(CleanValues(ColumnCells(rows, col)))
  }

  /** A column in which every row of a group holds the same text lists
      that text, cleaned, as its only value, or nothing at all when the
      text is blank. */
  lemma ParentValuesConstant(rows: seq<Row>, col: string, v: string)
    requires rows != []
    requires forall r :: 0 <= r < |rows| ==> Get(rows[r], col) == Text(v)
    ensures ParentValues(rows, col) == if HasContent(Text(v)) then [CleanValue(v)] else []
  {
    var xs := CleanValues(ColumnCells(rows, col));
    CleanValuesConstant(ColumnCells(rows, col), v);
    if HasContent(Text(v)) {
      var w := CleanValue(v);
      assert xs[0] == w;
      assert forall y :: y in xs <==> y == w;
      StrictlySortedUnique(SortedDistinct(xs), [w]);
    }
  }

  /** The parent carries the attribute's columns: the column exists and
      some value survives cleaning. */
  predicate Emits(c: AttrConfig, columns: seq<string>, rows: seq<Row>) {
    c.col in columns && CleanValues(ColumnCells(rows, c.col)) != []
  }

  /** The `attribute_data` flags of a parent attribute. */
  function VisibilityFlags(visible: bool): string {
    if visible then "0|1|1" else "0|0|1"
  }

  /** The four parent columns of one attribute, written in source order. */
  function WriteAttribute(rec: Record, slug: string, joined: string, flags: string): Record {
    rec[Attr(AttrValue, slug) := joined]
       [Attr(AttrData, slug) := flags]
       [Attr(AttrVariation, slug) := "1"]
       [Attr(AttrDefault, slug) := ""]
  }

  function SetParentAttribute(rec: Record, c: AttrConfig, columns: seq<string>, rows: seq<Row>): Record {
    if Emits(c, columns, rows) then
      WriteAttribute(rec, c.slug, Join("|", ParentValues(rows, c.col)), VisibilityFlags(c.visibleInfo))
    else rec
  }

  /** The loop over the attribute configuration that fills a parent
      record, later entries overwriting earlier ones. */
  function AddParentAttributes(rec: Record, config: seq<AttrConfig>, columns: seq<string>, rows: seq<Row>): Record
    decreases |config|
  {
    if config == [] then rec
    else AddParentAttributes(SetParentAttribute(rec, config[0], columns, rows), config[1..], columns, rows)
  }

  /** The parent record of a product's rows. */
  function ParentRecord(name: string, rows: seq<Row>, columns: seq<string>, roles: Roles, brand: string,
                        config: seq<AttrConfig>): Record
    requires rows != []
  {
    AddParentAttributes(ParentBase(name, rows[0], roles, brand), config, columns, rows)
  }

  function Slugs(config: seq<AttrConfig>): set<string> {
    set c | c in config :: c.slug
  }

  /** No two configured attributes share a slug. */
  predicate DistinctSlugs(config: seq<AttrConfig>) {
    forall i, j :: 0 <= i < j < |config| ==> config[i].slug != config[j].slug
  }

  /** Columns a parent-attribute loop over `config` never writes: fixed
      columns, `meta:` columns, and columns of other slugs. */
  predicate ParentUntouched(k: Column, config: seq<AttrConfig>) {
    !k.Attr? || k.field == AttrMeta || k.slug !in Slugs(config)
  }

  /** One attribute's step leaves every other column alone. */
  lemma SetParentFrame(rec: Record, c: AttrConfig, columns: seq<string>, rows: seq<Row>, k: Column)
    requires !k.Attr? || k.field == AttrMeta || k.slug != c.slug
    ensures Agree(SetParentAttribute(rec, c, columns, rows), rec, k)
  {
  }

  /** The parent-attribute loop writes nothing but the attribute columns of
      the configured slugs, and never a `meta:` column. */
  lemma {:induction false} ParentAttributesFrame(rec: Record, config: seq<AttrConfig>, columns: seq<string>,
                                                 rows: seq<Row>, k: Column)
    requires ParentUntouched(k, config)
    ensures Agree(AddParentAttributes(rec, config, columns, rows), rec, k)
    decreases |config|
  {
    if config != [] {
      assert Slugs(config[1..]) <= Slugs(config) by {
        forall c | c in config[1..] ensures c in config { }
      }
      assert config[0] in config;
      SetParentFrame(rec, config[0], columns, rows, k);
      ParentAttributesFrame(SetParentAttribute(rec, config[0], columns, rows), config[1..], columns, rows, k);
    }
  }

  /** A record shows an emitted attribute: the joined sorted values, the
      visibility flags, `1` and a blank default. */
  predicate ShowsAttribute(r: Record, c: AttrConfig, rows: seq<Row>) {
    && Attr(AttrValue, c.slug) in r && r[Attr(AttrValue, c.slug)] == Join("|", ParentValues(rows, c.col))
    && Attr(AttrData, c.slug) in r && r[Attr(AttrData, c.slug)] == VisibilityFlags(c.visibleInfo)
    && Attr(AttrVariation, c.slug) in r && r[Attr(AttrVariation, c.slug)] == "1"
    && Attr(AttrDefault, c.slug) in r && r[Attr(AttrDefault, c.slug)] == ""
  }

  lemma DistinctSlugsTail(config: seq<AttrConfig>)
    requires DistinctSlugs(config) && config != []
    ensures DistinctSlugs(config[1..])
    ensures config[0].slug !in Slugs(config[1..])
  {
    forall c | c in config[1..] ensures c.slug != config[0].slug {
      var j :| 0 <= j < |config[1..]| && config[1..][j] == c;
      assert config[j + 1] == c;
    }
  }

  /** An attribute that keeps a value after cleaning, and whose slug no
      other attribute shares, shows on the parent record. */
  lemma {:induction false} ParentAttributeShown(rec: Record, config: seq<AttrConfig>, columns: seq<string>,
                                                rows: seq<Row>, i: nat)
    requires DistinctSlugs(config) && i < |config|
    requires Emits(config[i], columns, rows)
    ensures ShowsAttribute(AddParentAttributes(rec, config, columns, rows), config[i], rows)
    decreases |config|
  {
    var c := config[0];
    var rest := config[1..];
    var next := SetParentAttribute(rec, c, columns, rows);
    DistinctSlugsTail(config);
    if i == 0 {
      forall f: Field | f != AttrMeta
        ensures Agree(AddParentAttributes(next, rest, columns, rows), next, Attr(f, c.slug))
      {
        ParentAttributesFrame(next, rest, columns, rows, Attr(f, c.slug));
      }
    } else {
      assert config[i] == rest[i - 1];
      ParentAttributeShown(next, rest, columns, rows, i - 1);
    }
  }

  /** An attribute whose values all clean away leaves its parent columns as
      they were, provided no other attribute shares its slug. */
  lemma {:induction false} ParentAttributeSkipped(rec: Record, config: seq<AttrConfig>, columns: seq<string>,
                                                  rows: seq<Row>, i: nat, f: Field)
    requires DistinctSlugs(config) && i < |config|
    requires !Emits(config[i], columns, rows)
    ensures Agree(AddParentAttributes(rec, config, columns, rows), rec, Attr(f, config[i].slug))
    decreases |config|
  {
    var c := config[0];
    var rest := config[1..];
    var next := SetParentAttribute(rec, c, columns, rows);
    DistinctSlugsTail(config);
    var k := Attr(f, config[i].slug);
    if i == 0 {
      ParentAttributesFrame(next, rest, columns, rows, k);
    } else {
      assert config[i] == rest[i - 1];
      ParentAttributeSkipped(next, rest, columns, rows, i - 1, f);
      assert config[i].slug != c.slug;
    }
  }

  /** What a variation row shows in `attribute_data:pa_{slug}`: the
      stripped cell for a variation attribute whose cell is present, and a
      blank otherwise. */
  function VariationValue(c: AttrConfig, columns: seq<string>, row: Row): (r: string)
    ensures r != "" <==> c.isVariation && c.col in columns && HasContent(Get(row, c.col))
    ensures r != "" ==> r == Strip(Get(row, c.col).text)
  {
    if c.isVariation && c.col in columns && Get(row, c.col).Text? then Strip(Get(row, c.col).text) else ""
  }

  /** The fields of a variation record that do not depend on the attributes. */
  function VariationBase(name: string, row: Row, parentSku: string, roles: Roles): Record {
    map[
      ProductType := "variation",
      PostType := "product_variation",
      PostTitle := name,
      Sku := CsvText(Get(row, roles.sku)),
      ParentSkuColumn := parentSku,
      RegularPrice := "0",
      StockStatus := "instock",
      Images := CsvText(Get(row, "Image URL"))
    ]
  }

  function SetVariationAttribute(rec: Record, c: AttrConfig, columns: seq<string>, row: Row): Record {
    rec[Attr(AttrData, c.slug) := VariationValue(c, columns, row)]
  }

  /** The loop over the attribute configuration that fills a variation
      record. */
  function AddVariationAttributes(rec: Record, config: seq<AttrConfig>, columns: seq<string>, row: Row): Record
    decreases |config|
  {
    if config == [] then rec
    else AddVariationAttributes(SetVariationAttribute(rec, config[0], columns, row), config[1..], columns, row)
  }

  /** The variation record of one source row. */
  function VariationRecord(name: string, row: Row, parentSku: string, columns: seq<string>, roles: Roles,
                           config: seq<AttrConfig>): Record
  {
    AddVariationAttributes(VariationBase(name, row, parentSku, roles), config, columns, row)
  }

  /** Columns a variation-attribute loop over `config` never writes: anything
      but the `attribute_data:` column of a configured slug. */
  predicate VariationUntouched(k: Column, config: seq<AttrConfig>) {
    !k.Attr? || k.field != AttrData || k.slug !in Slugs(config)
  }

  /** The variation-attribute loop writes only the `attribute_data:`
      columns of the configured slugs. */
  lemma {:induction false} VariationAttributesFrame(rec: Record, config: seq<AttrConfig>, columns: seq<string>,
                                                    row: Row, k: Column)
    requires VariationUntouched(k, config)
    ensures Agree(AddVariationAttributes(rec, config, columns, row), rec, k)
    decreases |config|
  {
    if config != [] {
      var c := config[0];
      assert c.slug in Slugs(config);
      assert Slugs(config[1..]) <= Slugs(config) by {
        forall d | d in config[1..] ensures d in config { }
      }
      VariationAttributesFrame(SetVariationAttribute(rec, c, columns, row), config[1..], columns, row, k);
    }
  }

  /** The variation-attribute loop never drops a column. */
  lemma {:induction false} VariationKeysKept(rec: Record, config: seq<AttrConfig>, columns: seq<string>, row: Row)
    ensures rec.Keys <= AddVariationAttributes(rec, config, columns, row).Keys
    decreases |config|
  {
    if config != [] {
      VariationKeysKept(SetVariationAttribute(rec, config[0], columns, row), config[1..], columns, row);
    }
  }

  /** Every configured attribute has its `attribute_data:` column on a
      variation record. */
  lemma {:induction false} VariationAttributePresent(rec: Record, config: seq<AttrConfig>, columns: seq<string>,
                                                     row: Row, i: nat)
    requires i < |config|
    ensures Attr(AttrData, config[i].slug) in AddVariationAttributes(rec, config, columns, row)
    decreases |config|
  {
    var next := SetVariationAttribute(rec, config[0], columns, row);
    if i == 0 {
      VariationKeysKept(next, config[1..], columns, row);
    } else {
      assert config[i] == config[1..][i - 1];
      VariationAttributePresent(next, config[1..], columns, row, i - 1);
    }
  }

  /** When no other attribute shares its slug, the `attribute_data:` column
      of a variation record holds the attribute's variation value. */
  lemma {:induction false} VariationAttributeValue(rec: Record, config: seq<AttrConfig>, columns: seq<string>,
                                                   row: Row, i: nat)
    requires DistinctSlugs(config) && i < |config|
    ensures var r := AddVariationAttributes(rec, config, columns, row);
            Attr(AttrData, config[i].slug) in r && r[Attr(AttrData, config[i].slug)] == VariationValue(config[i], columns, row)
    decreases |config|
  {
    var c := config[0];
    var next := SetVariationAttribute(rec, c, columns, row);
    DistinctSlugsTail(config);
    if i == 0 {
      VariationAttributesFrame(next, config[1..], columns, row, Attr(AttrData, c.slug));
    } else {
      assert config[i] == config[1..][i - 1];
      VariationAttributeValue(next, config[1..], columns, row, i - 1);
    }
  }

  /** The values `clean_attr_values` gets for a parent: `dropna().unique()`
      of the column. Keeping only the distinct present cells, in any order,
      gives the same value list as cleaning the whole column. */
  lemma UniqueIrrelevant(rows: seq<Row>, col: string, unique: seq<Cell>)
    requires forall c :: c in unique <==> c in ColumnCells(rows, col) && c.Text?
    ensures SortedDistinct(CleanValues(unique)) == ParentValues(rows, col)
  {
    var column := ColumnCells(rows, col);
    forall v ensures v in CleanValues(unique) <==> v in CleanValues(column) {
      CleanValuesMembers(unique, v);
      CleanValuesMembers(column, v);
      CleansToCovered(unique, column, v);
      CleansToCovered(column, unique, v);
    }
    SortedDistinctOfSameElements(CleanValues(unique), CleanValues(column));
  }

  /** The parent's values are exactly the cleaned forms of the present,
      non-blank cells of the column, strictly sorted, each one clean. */
  lemma ParentValuesMembers(rows: seq<Row>, col: string, v: string)
    ensures StrictlySorted(ParentValues(rows, col))
    ensures v in ParentValues(rows, col) <==> CleansTo(ColumnCells(rows, col), v)
    ensures v in ParentValues(rows, col) ==> IsClean(v)
  {
    CleanValuesMembers(ColumnCells(rows, col), v);
    if v in ParentValues(rows, col) {
      AllCleanMembers(CleanValues(ColumnCells(rows, col)), v);
    }
  }

  /** A populated variation value belongs to its parent: the parent emits
      the attribute, and the value cleans to one of the parent's values. */
  lemma VariationValueInParent(c: AttrConfig, columns: seq<string>, rows: seq<Row>, row: Row)
    requires row in rows
    requires VariationValue(c, columns, row) != ""
    ensures Emits(c, columns, rows)
    ensures CleanValue(VariationValue(c, columns, row)) in ParentValues(rows, c.col)
  {
    var s := Get(row, c.col).text;
    var column := ColumnCells(rows, c.col);
    var i :| 0 <= i < |rows| && rows[i] == row;
    assert column[i] == Get(row, c.col);
    CleanAfterStrip(s);
    ParentValuesMembers(rows, c.col, CleanValue(s));
  }

  /** With no comma or pipe in any cell, the parent's joined value splits
      back into its value list. */
  lemma ParentValuesSplit(rows: seq<Row>, col: string)
    requires CleanValues(ColumnCells(rows, col)) != []
    requires forall i :: 0 <= i < |rows| && Get(rows[i], col).Text? ==>
               ',' !in Get(rows[i], col).text && '|' !in Get(rows[i], col).text
    ensures Split(Join("|", ParentValues(rows, col)), '|') == ParentValues(rows, col)
  {
    var vs := ParentValues(rows, col);
    var column := ColumnCells(rows, col);
    forall k | 0 <= k < |vs| ensures '|' !in vs[k] {
      ParentValuesMembers(rows, col, vs[k]);
      var i :| 0 <= i < |column| && HasContent(column[i]) && CleanValue(column[i].text) == vs[k];
      assert Get(rows[i], col) == column[i];
      CleanValueKeepsOut(column[i].text, '|');
    }
    SplitJoin(vs, '|');
  }

  /** The attribute loops leave every fixed column of a parent record, and
      `brand`, as the base fields set them. */
  lemma ParentKeepsPlain(name: string, rows: seq<Row>, columns: seq<string>, roles: Roles, brand: string,
                         config: seq<AttrConfig>, k: Column)
    requires rows != []
    requires !k.Attr?
    ensures Agree(ParentRecord(name, rows, columns, roles, brand, config), ParentBase(name, rows[0], roles, brand), k)
  {
    ParentAttributesFrame(ParentBase(name, rows[0], roles, brand), config, columns, rows, k);
  }

  /** A parent record never has a `meta:` column. */
  lemma ParentHasNoMeta(name: string, rows: seq<Row>, columns: seq<string>, roles: Roles, brand: string,
                        config: seq<AttrConfig>, slug: string)
    requires rows != []
    ensures Attr(AttrMeta, slug) !in ParentRecord(name, rows, columns, roles, brand, config)
  {
    ParentAttributesFrame(ParentBase(name, rows[0], roles, brand), config, columns, rows, Attr(AttrMeta, slug));
  }

  /** The attribute loop leaves every fixed column of a variation record as
      the base fields set it. */
  lemma VariationKeepsPlain(name: string, row: Row, parentSku: string, columns: seq<string>, roles: Roles,
                            config: seq<AttrConfig>, k: Column)
    requires !k.Attr?
    ensures Agree(VariationRecord(name, row, parentSku, columns, roles, config),
                  VariationBase(name, row, parentSku, roles), k)
  {
    VariationAttributesFrame(VariationBase(name, row, parentSku, roles), config, columns, row, k);
  }

  /** A variation record has no attribute column but `attribute_data:`, and
      no `brand`. */
  lemma VariationOnlyData(name: string, row: Row, parentSku: string, columns: seq<string>, roles: Roles,
                          config: seq<AttrConfig>, k: Column)
    requires k == Brand || (k.Attr? && k.field != AttrData)
    ensures k !in VariationRecord(name, row, parentSku, columns, roles, config)
  {
    VariationAttributesFrame(VariationBase(name, row, parentSku, roles), config, columns, row, k);
  }

  /** The fixed cells of a parent record: a variable product titled with
      the product name and carrying the brand, the parent SKU, the first
      row's category, descriptions and image, in stock, with no parent SKU
      and no regular price. */
  lemma ParentFixedCells(name: string, rows: seq<Row>, columns: seq<string>, roles: Roles, brand: string,
                         config: seq<AttrConfig>)
    requires rows != []
    ensures var rec := ParentRecord(name, rows, columns, roles, brand, config);
            && CellText(rec, ProductType) == "variable"
            && CellText(rec, PostType) == "product"
            && CellText(rec, PostTitle) == name
            && CellText(rec, Brand) == brand
            && CellText(rec, Sku) == ParentSku(brand, rows[0], roles)
            && CellText(rec, ParentSkuColumn) == ""
            && CellText(rec, RegularPrice) == ""
            && CellText(rec, StockStatus) == "instock"
            && CellText(rec, Categories) == CsvText(Get(rows[0], roles.category))
            && CellText(rec, ShortDescription) == CsvText(Get(rows[0], "Short description"))
            && CellText(rec, Description) == CsvText(Get(rows[0], "Description"))
            && CellText(rec, Images) == CsvText(Get(rows[0], "Image URL"))
  {
    var rec := ParentRecord(name, rows, columns, roles, brand, config);
    var base := ParentBase(name, rows[0], roles, brand);
    ParentBaseCells(name, rows, roles, brand);
    ParentBaseDetails(name, rows, roles, brand);
    forall k: Column | !k.Attr? ensures CellText(rec, k) == CellText(base, k) {
      ParentKeepsPlain(name, rows, columns, roles, brand, config, k);
    }
  }

  lemma ParentBaseCells(name: string, rows: seq<Row>, roles: Roles, brand: string)
    requires rows != []
    ensures var rec := ParentBase(name, rows[0], roles, brand);
            && CellText(rec, ProductType) == "variable"
            && CellText(rec, PostType) == "product"
            && CellText(rec, PostTitle) == name
            && CellText(rec, Brand) == brand
            && CellText(rec, Sku) == ParentSku(brand, rows[0], roles)
            && CellText(rec, ParentSkuColumn) == ""
  {
  }

  lemma ParentBaseDetails(name: string, rows: seq<Row>, roles: Roles, brand: string)
    requires rows != []
    ensures var rec := ParentBase(name, rows[0], roles, brand);
            && CellText(rec, RegularPrice) == ""
            && CellText(rec, StockStatus) == "instock"
            && CellText(rec, Categories) == CsvText(Get(rows[0], roles.category))
            && CellText(rec, ShortDescription) == CsvText(Get(rows[0], "Short description"))
            && CellText(rec, Description) == CsvText(Get(rows[0], "Description"))
            && CellText(rec, Images) == CsvText(Get(rows[0], "Image URL"))
  {
  }

  /** The fixed cells of a variation record: a product variation titled
      with the product name, carrying its own row's SKU and image and the
      parent SKU, priced `0`, in stock, with blank category, descriptions
      and brand. */
  lemma VariationFixedCells(name: string, row: Row, parentSku: string, columns: seq<string>, roles: Roles,
                            config: seq<AttrConfig>)
    ensures var rec := VariationRecord(name, row, parentSku, columns, roles, config);
            && CellText(rec, ProductType) == "variation"
            && CellText(rec, PostType) == "product_variation"
            && CellText(rec, PostTitle) == name
            && CellText(rec, Brand) == ""
            && CellText(rec, Sku) == CsvText(Get(row, roles.sku))
            && CellText(rec, ParentSkuColumn) == parentSku
            && CellText(rec, RegularPrice) == "0"
            && CellText(rec, StockStatus) == "instock"
            && CellText(rec, Categories) == ""
            && CellText(rec, ShortDescription) == ""
            && CellText(rec, Description) == ""
            && CellText(rec, Images) == CsvText(Get(row, "Image URL"))
  {
    var rec := VariationRecord(name, row, parentSku, columns, roles, config);
    var base := VariationBase(name, row, parentSku, roles);
    VariationBaseCells(name, row, parentSku, roles);
    forall k: Column | !k.Attr? ensures CellText(rec, k) == CellText(base, k) {
      VariationKeepsPlain(name, row, parentSku, columns, roles, config, k);
    }
  }

  lemma VariationBaseCells(name: string, row: Row, parentSku: string, roles: Roles)
    ensures var rec := VariationBase(name, row, parentSku, roles);
            && CellText(rec, ProductType) == "variation"
            && CellText(rec, PostType) == "product_variation"
            && CellText(rec, PostTitle) == name
            && CellText(rec, Brand) == ""
            && CellText(rec, Sku) == CsvText(Get(row, roles.sku))
            && CellText(rec, ParentSkuColumn) == parentSku
            && CellText(rec, RegularPrice) == "0"
            && CellText(rec, StockStatus) == "instock"
            && CellText(rec, Categories) == ""
            && CellText(rec, ShortDescription) == ""
            && CellText(rec, Description) == ""
            && CellText(rec, Images) == CsvText(Get(row, "Image URL"))
  {
  }

  /** The five cells of attribute `i` on a parent record, slugs distinct:
      the joined values, the visibility flags, a blank default and `1`
      when the attribute keeps a value after cleaning, all blank when it
      does not, and the `meta:` cell blank either way. */
  lemma ParentAttributeCells(name: string, rows: seq<Row>, columns: seq<string>, roles: Roles, brand: string,
                             config: seq<AttrConfig>, i: nat)
    requires rows != [] && DistinctSlugs(config) && i < |config|
    ensures var rec, c := ParentRecord(name, rows, columns, roles, brand, config), config[i];
            var emits := Emits(c, columns, rows);
            && CellText(rec, Attr(AttrValue, c.slug)) == (if emits then Join("|", ParentValues(rows, c.col)) else "")
            && CellText(rec, Attr(AttrData, c.slug)) == (if emits then VisibilityFlags(c.visibleInfo) else "")
            && CellText(rec, Attr(AttrDefault, c.slug)) == ""
            && CellText(rec, Attr(AttrVariation, c.slug)) == (if emits then "1" else "")
            && CellText(rec, Attr(AttrMeta, c.slug)) == ""
  {
    var base := ParentBase(name, rows[0], roles, brand);
    var c := config[i];
    ParentHasNoMeta(name, rows, columns, roles, brand, config, c.slug);
    if Emits(c, columns, rows) {
      ParentAttributeShown(base, config, columns, rows, i);
    } else {
      forall f: Field ensures Agree(AddParentAttributes(base, config, columns, rows), base, Attr(f, c.slug)) {
        ParentAttributeSkipped(base, config, columns, rows, i, f);
      }
    }
  }

  /** The five cells of attribute `i` on a variation record, slugs
      distinct: the variation value in the `attribute_data:` cell and
      blanks in the other four. */
  lemma VariationAttributeCells(name: string, row: Row, parentSku: string, columns: seq<string>, roles: Roles,
                                config: seq<AttrConfig>, i: nat)
    requires DistinctSlugs(config) && i < |config|
    ensures var rec, c := VariationRecord(name, row, parentSku, columns, roles, config), config[i];
            && CellText(rec, Attr(AttrValue, c.slug)) == ""
            && CellText(rec, Attr(AttrData, c.slug)) == VariationValue(c, columns, row)
            && CellText(rec, Attr(AttrDefault, c.slug)) == ""
            && CellText(rec, Attr(AttrVariation, c.slug)) == ""
            && CellText(rec, Attr(AttrMeta, c.slug)) == ""
  {
    var base := VariationBase(name, row, parentSku, roles);
    var slug := config[i].slug;
    VariationAttributeValue(base, config, columns, row, i);
    VariationOnlyData(name, row, parentSku, columns, roles, config, Attr(AttrValue, slug));
    VariationOnlyData(name, row, parentSku, columns, roles, config, Attr(AttrDefault, slug));
    VariationOnlyData(name, row, parentSku, columns, roles, config, Attr(AttrVariation, slug));
    VariationOnlyData(name, row, parentSku, columns, roles, config, Attr(AttrMeta, slug));
  }

  /** A variation record's populated attribute value, once cleaned, is one
      of the values its parent record lists for that attribute, provided
      no cell of the attribute's column holds a comma or a pipe. */
  lemma VariationMatchesParentRecord(name: string, rows: seq<Row>, source: Row, parentSku: string,
                                     columns: seq<string>, roles: Roles, brand: string,
                                     config: seq<AttrConfig>, i: nat)
    requires source in rows && DistinctSlugs(config) && i < |config|
    requires forall r :: 0 <= r < |rows| && Get(rows[r], config[i].col).Text? ==>
               ',' !in Get(rows[r], config[i].col).text && '|' !in Get(rows[r], config[i].col).text
    requires VariationValue(config[i], columns, source) != ""
    ensures var parent := ParentRecord(name, rows, columns, roles, brand, config);
            var variation := VariationRecord(name, source, parentSku, columns, roles, config);
            var slug := config[i].slug;
            CleanValue(CellText(variation, Attr(AttrData, slug))) in Split(CellText(parent, Attr(AttrValue, slug)), '|')
  {
    var c := config[i];
    VariationAttributeCells(name, source, parentSku, columns, roles, config, i);
    VariationValueInParent(c, columns, rows, source);
    ParentAttributeCells(name, rows, columns, roles, brand, config, i);
    ParentValuesSplit(rows, c.col);
  }
}
